// The symbol writer of the a.out linker over its own buffers.
module AoutLink {
  import opened Bytes
  import opened AoutSymtab

  const EXTERNAL_NLIST_SIZE: nat := 12

  lemma W64Adds(a: int, b: int)
    ensures W64(W64(a) + b) == W64(a + b)
  {
  }

  function Signed(c: byte): int { if c >= 128 then c as int - 256 else c as int }

  /** Where the character loop goes from position `p`. */
  function NextChar(s: Name, p: nat): (n: nat)
    requires p < |s|
    ensures p < n <= |s|
  {
    p + 1 + if s[p] == 40 then DigitRun(s[p + 1..]) else 0
  }

  lemma CharSumFrom(s: Name, p: nat)
    requires p < |s|
    ensures CharSum(s[p..]) == Signed(s[p]) + CharSum(s[NextChar(s, p)..])
  {
    var rest := s[p..];
    assert rest[1..] == s[p + 1..];
    assert rest[0] == 40 ==> rest[1 + DigitRun(rest[1..])..] == s[NextChar(s, p)..];
  }

  lemma CharSumEnd(s: Name)
    ensures CharSum(s[|s|..]) == 0
  {
  }

  /** The inner loop over one stab string. */
  method AddChars(s: Name, start: nat) returns (val: nat)
    ensures val == W64(start + CharSum(s))
  {
    hide CharSum, Signed, W64;
    val := W64(start);
    var p := 0;
    ghost var done := 0;
    assert s[0..] == s;
    while p < |s|
      invariant p <= |s| && done + CharSum(s[p..]) == CharSum(s) && val == W64(start + done)
    {
      ghost var c := Signed(s[p]);
      CharSumFrom(s, p);
      W64Adds(start + done, c);
      val := W64(val + Signed(s[p]));
      done := done + c;
      ghost var q := p;
      if s[p] == 40 {
        p := SkipDigits(s, p + 1);
      } else {
        p := p + 1;
      }
      assert p == NextChar(s, q);
    }
    CharSumEnd(s);
  }

  method SkipDigits(s: Name, p: nat) returns (n: nat)
    requires p <= |s|
    ensures n == p + DigitRun(s[p..]) <= |s|
  {
    n := p;
    while n < |s| && IsDigit(s[n])
      invariant p <= n <= |s| && n - p + DigitRun(s[n..]) == DigitRun(s[p..])
    {
      assert s[n..][1..] == s[n + 1..] && s[n..][0] == s[n];
      n := n + 1;
    }
    assert n < |s| ==> s[n..][0] == s[n];
  }

  /** The scan ahead to the matching N_EINCL that adds up a header's own stab strings. */
  method ScanHeader(syms: seq<Nlist>, i: nat) returns (val: nat)
    requires i < |syms|
    ensures val == HeaderTotal(syms, i)
  {
    val := 0;
    var j, nest: nat := i + 1, 0;
    ghost var total := HeaderSum(syms, i + 1, 0);
    while j < |syms|
      invariant j <= |syms| && W64(val + HeaderSum(syms, j, nest)) == W64(total) && val == W64(val)
    {
      if syms[j].typ == N_EINCL {
        if nest == 0 {
          return;
        }
        nest := nest - 1;
      } else if syms[j].typ == N_BINCL {
        nest := nest + 1;
      } else if nest == 0 {
        ghost var v := val;
        val := AddChars(syms[j].name, val);
        W64Adds(v + CharSum(syms[j].name), HeaderSum(syms, j + 1, 0));
      }
      j := j + 1;
    }
  }

  /** `struct aout_final_link_info` and the output's symbol table.  `file` is what has been written to
      the output's symbol table. */
  class FinalLink {
    var hash: Hash
    var includes: Includes
    var file: seq<Nlist>
    var symCount: nat
    var symoff: nat
    const symBase: nat
    const symbolMap: array<int>
    const outputSyms: array<Nlist>

    constructor (hash: Hash, symBase: nat, maxSyms: nat)
      ensures Valid() && this.hash == hash && includes == map[] && file == []
      ensures symbolMap.Length == maxSyms && outputSyms.Length == maxSyms + 1
      ensures fresh(symbolMap) && fresh(outputSyms)
    {
      this.hash, includes, file, symCount := hash, map[], [], 0;
      this.symBase, symoff := symBase, symBase;
      symbolMap := new int[maxSyms](_ => 0);
      outputSyms := new Nlist[maxSyms + 1](_ => Nlist(0, 0, 0, [], 0));
    }

    /** Between inputs, every record counted is in the file, and the next goes right after. */
    ghost predicate Valid()
      reads this
    {
      symCount == |file| && symoff == symBase + EXTERNAL_NLIST_SIZE * |file|
    }

    /** The state of the symbol loop. */
    ghost function St(n: nat, symHash: array<Option<Name>>, outsym: nat, origin: seq<nat>, pass: bool,
                      skipNext: bool): State
      requires n <= symbolMap.Length && outsym <= outputSyms.Length
      reads this, symbolMap, outputSyms, symHash
    {
      State(symbolMap[..n], symHash[..], hash, file + outputSyms[..outsym], origin, includes, pass, skipNext)
    }

    /** Put a record into the buffer and the symbol into the map. */
    method PutRecord(i: nat, r: Nlist, outsym: nat)
      requires i < symbolMap.Length && outsym < outputSyms.Length
      modifies `symCount, symbolMap, outputSyms
      ensures symbolMap[..] == old(symbolMap[..])[i := old(symCount)]
      ensures outputSyms[..outsym + 1] == old(outputSyms[..outsym]) + [r]
      ensures symCount == old(symCount) + 1
    {
      outputSyms[outsym] := r;
      symbolMap[i] := symCount;
      symCount := symCount + 1;
    }

    /** Mark the symbols of a duplicate header. */
    method MarkHeader(syms: seq<Nlist>, i: nat)
      requires i < |syms| <= symbolMap.Length
      modifies symbolMap
      ensures symbolMap[..|syms|] == Marked(old(symbolMap[..|syms|]), Marks(syms, i + 1, 0))
    {
      ghost var m := symbolMap[..];
      ghost var done: set<nat> := {};
      var j, nest: nat := i + 1, 0;
      while j < |syms|
        invariant j <= |syms| && done + Marks(syms, j, nest) == Marks(syms, i + 1, 0)
        invariant forall k :: 0 <= k < symbolMap.Length ==> symbolMap[k] == if k in done then -1 else m[k]
      {
        if syms[j].typ == N_EINCL {
          if nest == 0 {
            symbolMap[j] := -1;
            done := done + {j};
            assert done == Marks(syms, i + 1, 0);
            return;
          }
          nest := nest - 1;
        } else if syms[j].typ == N_BINCL {
          nest := nest + 1;
        } else if nest == 0 {
          symbolMap[j] := -1;
          done := done + {j};
        }
        j := j + 1;
      }
    }

    /** Header folding and the copy. */
    method EmitSymbol(cfg: Config, syms: seq<Nlist>, i: nat, w: Written, name: Name, recName: Name, outsym: nat,
                      symHash: array<Option<Name>>, ghost origin: seq<nat>, pass: bool, skipNext: bool)
      requires i < |syms| <= symbolMap.Length && outsym < outputSyms.Length && symHash.Length == |syms|
      requires symCount == |file| + outsym
      requires symHash as object != symbolMap && symHash as object != outputSyms
      modifies `symCount, `includes, symbolMap, outputSyms
      ensures symCount == |file| + outsym + 1
      ensures St(|syms|, symHash, outsym + 1, origin + [i], pass, skipNext)
        == Emit(cfg, syms, old(St(|syms|, symHash, outsym, origin, pass, skipNext)), i, w, name, recName)
    {
      hide HeaderTotal, Marks;
      var typ, value, s := w.typ, w.value, syms[i];
      if typ == N_BINCL {
        var total := ScanHeader(syms, i);
        value := total;
        var seen := Totals(includes, name);
        if total !in seen {
          includes := includes[name := seen + [total]];
        } else {
          typ := N_EXCL;
          MarkHeader(syms, i);
        }
      }
      PutRecord(i, Nlist(typ, s.other, s.desc, recName, value % TWO32), outsym);
      assert symbolMap[..|syms|] == symbolMap[..][..|syms|];
    }

    /** A symbol without a hash table entry. */
    method StepLocal(cfg: Config, syms: seq<Nlist>, i: nat, outsym: nat, symHash: array<Option<Name>>,
                     ghost origin: seq<nat>)
      returns (outsym': nat, pass: bool, skipNext: bool, ghost origin': seq<nat>)
      requires i < |syms| <= symbolMap.Length && outsym < outputSyms.Length && symHash.Length == |syms|
      requires symCount == |file| + outsym
      requires symHash as object != symbolMap && symHash as object != outputSyms
      modifies `symCount, `includes, symbolMap, outputSyms
      ensures outsym <= outsym' <= outsym + 1 && symCount == |file| + outsym'
      ensures St(|syms|, symHash, outsym', origin', pass, skipNext)
        == LocalStep(cfg, syms, old(St(|syms|, symHash, outsym, origin, false, false)), i)
    {
      hide Classify, Stripped, Discarded, Emit;
      var s := syms[i];
      outsym', pass, skipNext, origin' := outsym, false, false, origin;
      if Stripped(cfg, s, s.name) {
        return;
      }
      var w := Classify(cfg, s, None);
      if Discarded(cfg, w.typ, s.name) {
        return;
      }
      pass, skipNext := w.pass, w.skipNext;
      EmitSymbol(cfg, syms, i, w, s.name, s.name, outsym, symHash, origin, pass, skipNext);
      outsym', origin' := outsym + 1, origin + [i];
    }

    /** A symbol with one. */
    method StepEntry(cfg: Config, syms: seq<Nlist>, i: nat, n: Name, outsym: nat, symHash: array<Option<Name>>,
                     ghost origin: seq<nat>)
      returns (outsym': nat, pass: bool, skipNext: bool, ghost origin': seq<nat>)
      requires i < |syms| <= symbolMap.Length && outsym < outputSyms.Length && symHash.Length == |syms|
      requires symCount == |file| + outsym && symHash[i] == Some(n) && n in hash
      requires symHash as object != symbolMap && symHash as object != outputSyms
      modifies `symCount, `includes, `hash, symbolMap, outputSyms, symHash
      ensures outsym <= outsym' <= outsym + 1 && symCount == |file| + outsym'
      ensures St(|syms|, symHash, outsym', origin', pass, skipNext)
        == StepGlobal(cfg, syms, old(St(|syms|, symHash, outsym, origin, false, false)), i, old(hash[n]))
    {
      hide Classify, Stripped, Discarded, Emit, Resolve;
      var s, e := syms[i], hash[n];
      ghost var st := St(|syms|, symHash, outsym, origin, false, false);
      assert EntryOf(st, i) == Some(e);
      outsym', pass, skipNext, origin' := outsym, false, false, origin;
      var name := if e.typ.Warning? then s.name else n;
      var recName := if cfg.keepMemory then name else n;
      if e.typ.Indirect? || e.typ.Warning? {
        symHash[i] := Some(Resolve(hash, n, {}));
      }
      if e.written {
        skipNext := TypeBits(s.typ) == N_INDR || s.typ == N_WARNING;
        symbolMap[i] := e.indx;
        return;
      }
      if Stripped(cfg, s, name) {
        hash := hash[n := e.(written := true)];
        return;
      }
      var w := Classify(cfg, s, Some(ResolvedType(hash, n)));
      hash := hash[n := e.(written := true, indx := symCount)];
      pass, skipNext := w.pass, w.skipNext;
      EmitSymbol(cfg, syms, i, w, name, recName, outsym, symHash, origin, pass, skipNext);
      outsym', origin' := outsym + 1, origin + [i];
    }

    /** One turn of the symbol loop. */
    method StepSymbol(cfg: Config, syms: seq<Nlist>, i: nat, outsym: nat, symHash: array<Option<Name>>,
                      ghost origin: seq<nat>,
                      pass: bool, skipNext: bool)
      returns (outsym': nat, pass': bool, skipNext': bool, ghost origin': seq<nat>)
      requires i < |syms| <= symbolMap.Length && outsym < outputSyms.Length && symHash.Length == |syms|
      requires symCount == |file| + outsym
      requires symHash as object != symbolMap && symHash as object != outputSyms
      modifies `symCount, `includes, `hash, symbolMap, outputSyms, symHash
      ensures outsym <= outsym' <= outsym + 1 && symCount == |file| + outsym'
      ensures St(|syms|, symHash, outsym', origin', pass', skipNext')
        == Step(cfg, syms, old(St(|syms|, symHash, outsym, origin, pass, skipNext)), i)
    {
      hide Classify, Stripped, Discarded, Emit, LocalStep, StepGlobal;
      outsym', pass', skipNext', origin' := outsym, pass, skipNext, origin;
      if symbolMap[i] == -1 {
        return;
      }
      symbolMap[i] := -1;
      if pass {
        pass' := false;
        PutRecord(i, Nlist(syms[i].typ, syms[i].other, syms[i].desc, syms[i].name, syms[i].value % TWO32), outsym);
        outsym', origin' := outsym + 1, origin + [i];
        assert symbolMap[..|syms|] == symbolMap[..][..|syms|];
      } else if skipNext {
        skipNext' := false;
      } else if symHash[i].Some? && symHash[i].value in hash {
        outsym', pass', skipNext', origin' := StepEntry(cfg, syms, i, symHash[i].value, outsym, symHash, origin);
      } else {
        outsym', pass', skipNext', origin' := StepLocal(cfg, syms, i, outsym, symHash, origin);
      }
    }

    /** `aout_link_write_symbols`.  The buffer holds one record more than there are symbols, which is
        what the writer can produce. */
    method WriteInputSymbols(cfg: Config, syms: seq<Nlist>, symHash: array<Option<Name>>)
      requires Valid() && |syms| == symHash.Length && |syms| <= symbolMap.Length && |syms| < outputSyms.Length
      requires symHash as object != symbolMap && symHash as object != outputSyms
      modifies this, symbolMap, outputSyms, symHash
      ensures Valid()
      ensures var r := WriteSymbols(cfg, syms, old(symHash[..]), old(hash), old(file), old(includes));
        && file == r.out && hash == r.hash && includes == r.includes
        && symHash[..] == r.symHash && symbolMap[..|syms|] == r.smap
    {
      hide Step;
      var outsym, i: nat := 0, 0;
      if WritesFile(cfg) {
        outputSyms[0] := FileSymbol(cfg);
        symCount := symCount + 1;
        outsym := 1;
      }
      var pass, skipNext := false, false;
      ghost var origin: seq<nat> := [];
      ClearMap(|syms|);
      ghost var st0 := Start(cfg, |syms|, symHash[..], hash, file, includes);
      assert St(|syms|, symHash, outsym, origin, pass, skipNext) == st0;
      while i < |syms|
        invariant i <= |syms| && outsym <= i + 1 && symCount == |file| + outsym
        invariant file == old(file) && symoff == old(symoff)
        invariant St(|syms|, symHash, outsym, origin, pass, skipNext) == RunTo(cfg, syms, st0, i)
      {
        outsym, pass, skipNext, origin := StepSymbol(cfg, syms, i, outsym, symHash, origin, pass, skipNext);
        i := i + 1;
      }
      if outsym > 0 {
        file := file + outputSyms[..outsym];
        symoff := symoff + outsym * EXTERNAL_NLIST_SIZE;
      }
    }

    /** The `memset` of the symbol map. */
    method ClearMap(n: nat)
      requires n <= symbolMap.Length
      modifies symbolMap
      ensures symbolMap[..n] == seq(n, _ => 0)
    {
      var j := 0;
      while j < n
        invariant j <= n && forall k :: 0 <= k < j ==> symbolMap[k] == 0
      {
        symbolMap[j] := 0;
        j := j + 1;
      }
    }
  }
}
