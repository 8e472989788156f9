// What the sum over a header's stabs depends on, and which headers of a link are therefore folded.
module AoutStabs {
  import opened Bytes
  import opened AoutReloc
  import opened AoutSymtab
  import opened AoutRenumber
  import opened AoutJoin
  import opened AoutHeaders

  // ---- one string ------------------------------------------------------

  /** The character is a digit of a file number: only digits stand between it and an open parenthesis. */
  ghost predicate InNumber(s: Name, i: nat)
    requires i < |s|
  {
    exists j :: 0 <= j < i && s[j] == 40 && forall k :: j < k <= i ==> IsDigit(s[k])
  }

  /** The string from `p` on without its file numbers. */
  ghost function TextFrom(s: Name, p: nat): Name
    requires p <= |s|
    decreases |s| - p
  {
    if p == |s| then [] else (if InNumber(s, p) then [] else [s[p]]) + TextFrom(s, p + 1)
  }

  /** The sum of characters, which are signed. */
  function SignedSum(s: Name): int {
    if s == [] then 0 else (if s[0] < 128 then s[0] as int else s[0] as int - 256) + SignedSum(s[1..])
  }

  lemma {:induction false} NumberSkipped(s: Name, p: nat, q: nat)
    requires p <= q <= |s| && forall k :: p <= k < q ==> InNumber(s, k)
    ensures TextFrom(s, p) == TextFrom(s, q)
    decreases q - p
  {
    hide InNumber;
    if p < q {
      NumberSkipped(s, p + 1, q);
    }
  }

  /** The characters counted are those outside file numbers, wherever these stand. */
  lemma {:induction false} SumIsOfText(s: Name, p: nat)
    requires p <= |s| && (p < |s| ==> !InNumber(s, p))
    ensures CharSum(s[p..]) == SignedSum(TextFrom(s, p))
    decreases |s| - p
  {
    hide CharSum, InNumber;
    if p == |s| {
      NothingSums();
      assert TextFrom(s, p) == [];
    } else {
      var q := p + Stride(s[p..]);
      assert s[p..][1..] == s[p + 1..] && s[p..][Stride(s[p..])..] == s[q..];
      OneStride(s[p..]);
      StrideIsNumber(s, p, q);
      NumberSkipped(s, p + 1, q);
      SumIsOfText(s, q);
      SignedFirst(s[p], TextFrom(s, q));
    }
  }

  lemma SignedFirst(c: byte, t: Name)
    ensures SignedSum([c] + t) == SignedSum([c]) + SignedSum(t)
  {
    assert ([c] + t)[1..] == t && [c][1..] == [];
  }

  lemma StrideIsNumber(s: Name, p: nat, q: nat)
    requires p < |s| && q == p + Stride(s[p..]) && !InNumber(s, p)
    ensures p < q <= |s| && forall k :: p < k < q ==> InNumber(s, k)
    ensures q < |s| ==> !InNumber(s, q)
  {
    assert s[p..][1..] == s[p + 1..];
    forall k | p < k < q
      ensures InNumber(s, k)
    {
      assert forall m :: p < m <= k ==> s[m] == s[p + 1..][m - (p + 1)];
    }
    if q < |s| {
      NumberEnds(s, p, q);
    }
  }

  lemma NumberEnds(s: Name, p: nat, q: nat)
    requires p < q < |s| && !InNumber(s, p)
    requires s[p] == 40 ==> !IsDigit(s[q])
    requires s[p] != 40 ==> q == p + 1
    ensures !InNumber(s, q)
  {
  }

  /** The string ends in a file number, or where one could begin. */
  ghost predicate EndsOpen(s: Name) {
    exists j :: 0 <= j < |s| && s[j] == 40 && forall k :: j < k < |s| ==> IsDigit(s[k])
  }

  /** How far the sum goes at once: over a file number after an open parenthesis. */
  function Stride(s: Name): (r: nat)
    requires s != []
    ensures 0 < r <= |s|
  {
    1 + if s[0] == 40 then DigitRun(s[1..]) else 0
  }

  lemma OneStride(s: Name)
    requires s != []
    ensures CharSum(s) == SignedSum([s[0]]) + CharSum(s[Stride(s)..])
  {
    assert [s[0]][1..] == [];
  }

  lemma SameStride(a: Name, b: Name)
    requires a != [] && (b == [] || !IsDigit(b[0]) || !EndsOpen(a))
    ensures Stride(a + b) == Stride(a)
  {
    assert (a + b)[1..] == a[1..] + b;
    if a[0] == 40 {
      if DigitRun(a[1..]) < |a| - 1 {
        RunInFront(a[1..], b);
      } else {
        assert forall k :: 0 < k < |a| ==> a[k] == a[1..][k - 1];
        assert EndsOpen(a);
        RunToEnd(a[1..], b);
      }
    }
  }

  /** Sums add up when a string is cut anywhere but inside a file number. */
  lemma {:induction false} SumsAdd(a: Name, b: Name)
    requires b == [] || !IsDigit(b[0]) || !EndsOpen(a)
    ensures CharSum(a + b) == CharSum(a) + CharSum(b)
    decreases |a|
  {
    hide CharSum, SignedSum, EndsOpen, Stride;
    if a == [] {
      assert a + b == b;
      NothingSums();
    } else {
      var r := Stride(a);
      SameStride(a, b);
      OneStride(a);
      OneStride(a + b);
      assert (a + b)[r..] == a[r..] + b && (a + b)[0] == a[0];
      if EndsOpen(a[r..]) {
        RestOpen(a, r);
      }
      SumsAdd(a[r..], b);
    }
  }

  lemma NothingSums()
    ensures CharSum([]) == 0
  {
  }

  lemma RestOpen(a: Name, r: nat)
    requires r <= |a| && EndsOpen(a[r..])
    ensures EndsOpen(a)
  {
    var t := a[r..];
    var j :| 0 <= j < |t| && t[j] == 40 && forall k :: j < k < |t| ==> IsDigit(t[k]);
    assert a[r + j] == 40;
    forall k | r + j < k < |a|
      ensures IsDigit(a[k])
    {
      assert a[k] == t[k - r];
    }
  }

  lemma RunInFront(a: Name, b: Name)
    requires DigitRun(a) < |a|
    ensures DigitRun(a + b) == DigitRun(a)
  {
    var n := DigitRun(a);
    DigitRunOf(a + b, a[..n]);
  }

  lemma RunToEnd(a: Name, b: Name)
    requires DigitRun(a) == |a| && (b == [] || !IsDigit(b[0]))
    ensures DigitRun(a + b) == |a|
  {
    DigitRunOf(a + b, a);
  }

  /** A file number makes no difference, nor does its length. */
  lemma NumbersDoNotCount(a: Name, number: Name, b: Name)
    requires forall i :: 0 <= i < |number| ==> IsDigit(number[i])
    requires b == [] || !IsDigit(b[0])
    ensures CharSum(a + ([40] + number + b)) == CharSum(a) + 40 + CharSum(b)
  {
    hide CharSum, EndsOpen, DigitRun;
    SumsAdd(a, [40] + number + b);
    TailSum(number, b);
  }

  lemma TailSum(number: Name, b: Name)
    requires forall i :: 0 <= i < |number| ==> IsDigit(number[i])
    requires b == [] || !IsDigit(b[0])
    ensures CharSum([40] + number + b) == 40 + CharSum(b)
  {
    hide CharSum, SignedSum, DigitRun;
    var tail, rest := [40] + number + b, number + b;
    assert rest[..|number|] == number;
    assert |number| < |rest| ==> rest[|number|] == b[0];
    DigitRunOf(rest, number);
    assert tail[1..] == rest && tail[1 + |number|..] == b;
    OneStride(tail);
    ParenSum();
  }

  lemma ParenSum()
    ensures SignedSum([40]) == 40
  {
    assert SignedSum([40][1..]) == 0;
  }

  /** Without parentheses all characters count. */
  lemma {:induction false} PlainSum(s: Name)
    requires 40 !in s
    ensures CharSum(s) == SignedSum(s)
  {
    if s != [] {
      PlainSum(s[1..]);
    }
  }

  // ---- one header ------------------------------------------------------

  /** The symbol stands in the header that opens at `i`, and in none nested in it. */
  predicate Own(syms: seq<Nlist>, i: nat, k: nat)
    requires i < k < |syms|
  {
    !IsBracket(syms[k].typ) && Balanced(syms[i + 1..k])
  }

  /** The header's own strings from `j` on, without file numbers. */
  ghost function OwnTexts(syms: seq<Nlist>, i: nat, j: nat): seq<Name>
    requires i < j <= |syms|
    decreases |syms| - j
  {
    if j == |syms| then []
    else (if Own(syms, i, j) then [TextFrom(syms[j].name, 0)] else []) + OwnTexts(syms, i, j + 1)
  }

  function SumOfAll(texts: seq<Name>): int {
    if texts == [] then 0 else SignedSum(texts[0]) + SumOfAll(texts[1..])
  }

  /** Once the header is closed it stays so. */
  lemma {:induction false} ClosedStays(syms: seq<Nlist>, i: nat, j: nat, k: nat)
    requires i < j <= k <= |syms| && Depth(syms[i + 1..j]).None?
    ensures Depth(syms[i + 1..k]).None?
    decreases k - j
  {
    if j < k {
      assert syms[i + 1..j + 1] == syms[i + 1..j] + [syms[j]];
      DepthNext(syms[i + 1..j], syms[j]);
      ClosedStays(syms, i, j + 1, k);
    }
  }

  lemma {:induction false} NoneOwn(syms: seq<Nlist>, i: nat, j: nat)
    requires i < j <= |syms| && Depth(syms[i + 1..j]).None?
    ensures OwnTexts(syms, i, j) == []
    decreases |syms| - j
  {
    if j < |syms| {
      assert syms[i + 1..j + 1] == syms[i + 1..j] + [syms[j]];
      DepthNext(syms[i + 1..j], syms[j]);
      NoneOwn(syms, i, j + 1);
    }
  }

  /** The scan from a place that is `nest` headers deep in this one. */
  lemma {:induction false} ScanIsOfTexts(syms: seq<Nlist>, i: nat, j: nat, nest: nat)
    requires i < j <= |syms| && Depth(syms[i + 1..j]) == Some(nest)
    ensures HeaderSum(syms, j, nest) == SumOfAll(OwnTexts(syms, i, j))
    decreases |syms| - j
  {
    hide CharSum, InNumber, TextFrom, Depth, SumOfAll, SignedSum;
    NoTexts();
    if j < |syms| {
      var s := syms[j];
      assert syms[i + 1..j + 1] == syms[i + 1..j] + [s];
      DepthNext(syms[i + 1..j], s);
      if s.typ == N_EINCL && nest == 0 {
        NoneOwn(syms, i, j + 1);
        assert OwnTexts(syms, i, j) == [] + OwnTexts(syms, i, j + 1);
      } else {
        ScanIsOfTexts(syms, i, j + 1,
          if s.typ == N_BINCL then nest + 1 else if s.typ == N_EINCL then nest - 1 else nest);
        WholeText(s.name);
        SumOfFirst(TextFrom(s.name, 0), OwnTexts(syms, i, j + 1));
        assert [] + OwnTexts(syms, i, j + 1) == OwnTexts(syms, i, j + 1);
      }
    } else {
      assert OwnTexts(syms, i, j) == [];
    }
  }

  lemma NoTexts()
    ensures SumOfAll([]) == 0
  {
  }

  lemma SumOfFirst(text: Name, texts: seq<Name>)
    ensures SumOfAll([text] + texts) == SignedSum(text) + SumOfAll(texts)
  {
    assert ([text] + texts)[1..] == texts;
  }

  lemma WholeText(s: Name)
    ensures CharSum(s) == SignedSum(TextFrom(s, 0))
  {
    assert s[0..] == s;
    if s != [] {
      assert !InNumber(s, 0);
    }
    SumIsOfText(s, 0);
  }

  /** A header's total is the sum over its own strings, those of nested headers and file numbers left out. */
  lemma TotalIsOfTexts(syms: seq<Nlist>, i: nat)
    requires i < |syms|
    ensures HeaderTotal(syms, i) == W64(SumOfAll(OwnTexts(syms, i, i + 1)))
  {
    assert syms[i + 1..i + 1] == [];
    ScanIsOfTexts(syms, i, i + 1, 0);
  }

  /** What a duplicate header drops: its own symbols and its own end. */
  lemma {:induction false} MarksAreOwn(syms: seq<Nlist>, i: nat, j: nat, nest: nat, k: nat)
    requires i < j <= k < |syms| && Depth(syms[i + 1..j]) == Some(nest)
    ensures k in Marks(syms, j, nest) <==> syms[k].typ != N_BINCL && Balanced(syms[i + 1..k])
    decreases |syms| - j
  {
    hide Depth;
    var s := syms[j];
    assert syms[i + 1..j + 1] == syms[i + 1..j] + [s];
    DepthNext(syms[i + 1..j], s);
    if s.typ == N_EINCL && nest == 0 {
      if k > j {
        ClosedStays(syms, i, j + 1, k);
      }
    } else if j < k {
      MarksAreOwn(syms, i, j + 1,
        if s.typ == N_BINCL then nest + 1 else if s.typ == N_EINCL then nest - 1 else nest, k);
    } else {
      LaterMarks(syms, j + 1, if s.typ == N_BINCL then nest + 1 else if s.typ == N_EINCL then nest - 1 else nest, k);
    }
  }

  lemma LaterMarks(syms: seq<Nlist>, j: nat, nest: nat, k: nat)
    requires k < j
    ensures k !in Marks(syms, j, nest)
  {
  }

  /** Two headers with the same own strings, but for file numbers and whatever headers are nested in them. */
  ghost predicate SameHeader(a: seq<Nlist>, i: nat, b: seq<Nlist>, j: nat)
    requires i < |a| && j < |b|
  {
    OwnTexts(a, i, i + 1) == OwnTexts(b, j, j + 1)
  }

  lemma SameTotals(a: seq<Nlist>, i: nat, b: seq<Nlist>, j: nat)
    requires i < |a| && j < |b| && SameHeader(a, i, b, j)
    ensures HeaderTotal(a, i) == HeaderTotal(b, j)
  {
    hide HeaderTotal, OwnTexts;
    TotalIsOfTexts(a, i);
    TotalIsOfTexts(b, j);
  }

  // ---- over a link -----------------------------------------------------

  /** Every total known of a name stays known. */
  predicate Known(before: Includes, after: Includes) {
    forall n :: n in before ==> forall t :: t in before[n] ==> t in Totals(after, n)
  }

  lemma KnownTotal(before: Includes, after: Includes, n: Name, t: nat)
    requires Known(before, after) && t in Totals(before, n)
    ensures t in Totals(after, n)
  {
  }

  lemma KnownAgain(a: Includes, b: Includes, c: Includes)
    requires Known(a, b) && Known(b, c)
    ensures Known(a, c)
  {
    forall n | n in a
      ensures forall t :: t in a[n] ==> t in Totals(c, n)
    {
      forall t | t in a[n]
        ensures t in Totals(c, n)
      {
        KnownTotal(a, b, n, t);
        KnownTotal(b, c, n, t);
      }
    }
  }

  lemma KnownStep(cfg: Config, syms: seq<Nlist>, st: State, k: nat)
    requires StateOk(syms, st) && k < |syms| && InTurn(syms, st, k)
    ensures var r := Step(cfg, syms, st, k); InTurn(syms, r, k + 1) && Known(st.includes, r.includes)
  {
    hide Step, InTurn, Kept, HeaderTotal, Marks;
    TurnKept(cfg, syms, st, k);
    if IsBracket(syms[k].typ) {
      InTurnBracket(syms, st, k);
      BracketStep(cfg, syms, st, k);
    } else {
      InTurnOne(syms, st, k);
      OtherStep(cfg, syms, st, k);
    }
  }

  lemma {:induction false} KnownRun(cfg: Config, syms: seq<Nlist>, st: State, k: nat, m: nat)
    requires StateOk(syms, st) && k <= m <= |syms| && InTurn(syms, st, 0)
    ensures var b, r := RunTo(cfg, syms, st, k), RunTo(cfg, syms, st, m);
      InTurn(syms, b, k) && InTurn(syms, r, m) && Known(b.includes, r.includes)
    decreases m
  {
    hide Step, InTurn, Known;
    if m == 0 {
      KnownSelf(st.includes);
    } else if k < m {
      KnownRun(cfg, syms, st, k, m - 1);
      KnownStep(cfg, syms, RunTo(cfg, syms, st, m - 1), m - 1);
      KnownAgain(RunTo(cfg, syms, st, k).includes, RunTo(cfg, syms, st, m - 1).includes,
        RunTo(cfg, syms, st, m).includes);
    } else {
      KnownRun(cfg, syms, st, m - 1, m - 1);
      KnownStep(cfg, syms, RunTo(cfg, syms, st, m - 1), m - 1);
      KnownSelf(RunTo(cfg, syms, st, m).includes);
    }
  }

  lemma KnownSelf(a: Includes)
    ensures Known(a, a)
  {
  }

  lemma KnownTake(strip: Strip, keep: set<Name>, t: Table, s: LinkStep)
    requires s.WriteInput? && |s.symHash| == |s.syms| ==> Plain(s.syms, s.symHash)
    ensures Known(t.includes, TakeStep(strip, keep, t, s).includes)
  {
    hide RunTo, WriteOther, ForceIndex, Plain, Known, InTurn;
    KnownSelf(t.includes);
    if s.WriteInput? && |s.symHash| == |s.syms| {
      var st := Start(s.cfg, |s.syms|, s.symHash, t.hash, t.out, t.includes);
      StartsInTurn(s.syms, st);
      KnownRun(s.cfg, s.syms, st, 0, |s.syms|);
      assert RunTo(s.cfg, s.syms, st, 0) == st by { RunsNothing(s.cfg, s.syms, st); }
    }
  }

  lemma RunsNothing(cfg: Config, syms: seq<Nlist>, st: State)
    requires StateOk(syms, st)
    ensures RunTo(cfg, syms, st, 0) == st
  {
  }

  lemma StartsInTurn(syms: seq<Nlist>, st: State)
    requires StateOk(syms, st) && Plain(syms, st.symHash) && !st.pass && !st.skipNext
    requires forall j :: 0 <= j < |syms| ==> st.smap[j] == 0
    ensures InTurn(syms, st, 0)
  {
    hide Plain;
  }

  lemma {:induction false} KnownLink(run: Run, p: nat, q: nat)
    requires PlainInputs(run.steps) && p <= q <= |run.steps|
    ensures Known(AfterSteps(run.strip, run.keep, run.t, run.steps[..p]).includes,
                  AfterSteps(run.strip, run.keep, run.t, run.steps[..q]).includes)
    decreases q
  {
    hide Known, TakeStep, Plain;
    if p == q {
      KnownSelf(AfterSteps(run.strip, run.keep, run.t, run.steps[..p]).includes);
    } else {
      KnownLink(run, p, q - 1);
      assert run.steps[..q][..q - 1] == run.steps[..q - 1];
      var u := AfterSteps(run.strip, run.keep, run.t, run.steps[..q - 1]);
      KnownTake(run.strip, run.keep, u, run.steps[q - 1]);
      KnownAgain(AfterSteps(run.strip, run.keep, run.t, run.steps[..p]).includes, u.includes,
        AfterSteps(run.strip, run.keep, run.t, run.steps[..q]).includes);
    }
  }

  /** The input's symbol `k` opens a header, and its turn finds it neither marked nor dropped by the options. */
  predicate OpensHeader(run: Run, p: nat, k: nat) {
    && IsInput(run, p) && k < |run.steps[p].syms| && run.steps[p].syms[k].typ == N_BINCL
    && Reached(run, p, k).smap[k] != -1 && Kept(run.steps[p].cfg, run.steps[p].syms[k])
  }

  /** Both tables agree on where the loop stands before and after a symbol. */
  lemma AtTurn(run: Run, p: nat, k: nat)
    requires PlainInputs(run.steps) && IsInput(run, p) && k < |run.steps[p].syms|
    ensures var s, b := run.steps[p], Reached(run, p, k);
      && StateOk(s.syms, b) && InTurn(s.syms, b, k) && Reached(run, p, k + 1) == Step(s.cfg, s.syms, b, k)
      && InTurn(s.syms, Reached(run, p, k + 1), k + 1)
    ensures Known(Begin(run, p).includes, Reached(run, p, k).includes)
    ensures Known(Reached(run, p, k + 1).includes, Ended(run, p).includes)
  {
    hide Step, Plain, InTurn, Known;
    var s, st := run.steps[p], Begin(run, p);
    StartsInTurn(s.syms, st);
    RunsNothing(s.cfg, s.syms, st);
    KnownRun(s.cfg, s.syms, st, 0, k);
    KnownRun(s.cfg, s.syms, st, k + 1, |s.syms|);
    NextReached(run, p, k);
  }

  /** From just behind one symbol to another, later in the same input or in a later one. */
  lemma KnownBetween(run: Run, p: nat, k: nat, q: nat, m: nat)
    requires PlainInputs(run.steps) && IsInput(run, p) && k < |run.steps[p].syms|
    requires IsInput(run, q) && m < |run.steps[q].syms| && (p < q || (p == q && k < m))
    ensures Known(Reached(run, p, k + 1).includes, Reached(run, q, m).includes)
  {
    hide Known, Plain, RunTo, AfterSteps, InTurn;
    if p == q {
      StartsInTurn(run.steps[p].syms, Begin(run, p));
      KnownRun(run.steps[p].cfg, run.steps[p].syms, Begin(run, p), k + 1, m);
    } else {
      AtTurn(run, p, k);
      AtTurn(run, q, m);
      IncludesNext(run, p);
      KnownLink(run, p + 1, q);
      KnownAgain(Reached(run, p, k + 1).includes, Ended(run, p).includes, Begin(run, q).includes);
      KnownAgain(Reached(run, p, k + 1).includes, Begin(run, q).includes, Reached(run, q, m).includes);
    }
  }

  lemma IncludesNext(run: Run, p: nat)
    requires IsInput(run, p)
    ensures AfterSteps(run.strip, run.keep, run.t, run.steps[..p + 1]).includes == Ended(run, p).includes
  {
    hide RunTo;
    assert run.steps[..p + 1][..p] == run.steps[..p];
  }

  /** What folding is for: a header that equals an earlier one of its name in the link, but for file numbers and
      for headers nested in it, is replaced by one N_EXCL that tells the total, and its own symbols and end are
      marked to be dropped. */
  lemma DuplicateFolded(run: Run, p: nat, k: nat, q: nat, m: nat)
    requires PlainInputs(run.steps) && OpensHeader(run, p, k) && OpensHeader(run, q, m)
    requires p < q || (p == q && k < m)
    requires run.steps[p].syms[k].name == run.steps[q].syms[m].name
    requires SameHeader(run.steps[p].syms, k, run.steps[q].syms, m)
    ensures var syms, b, r := run.steps[q].syms, Reached(run, q, m), Reached(run, q, m + 1);
      var s := syms[m];
      && r.out == b.out + [Nlist(N_EXCL, s.other, s.desc, s.name, HeaderTotal(syms, m) % TWO32)]
      && forall j :: m < j < |syms| && syms[j].typ != N_BINCL && Balanced(syms[m + 1..j]) ==> r.smap[j] == -1
  {
    hide Step, Plain, InTurn, Known, SameHeader, HeaderTotal, Marks, RunTo, Kept, Depth;
    var total := HeaderTotal(run.steps[p].syms, k);
    AtTurn(run, p, k);
    AtTurn(run, q, m);
    InTurnBracket(run.steps[p].syms, Reached(run, p, k), k);
    InTurnBracket(run.steps[q].syms, Reached(run, q, m), m);
    BracketStep(run.steps[p].cfg, run.steps[p].syms, Reached(run, p, k), k);
    BracketStep(run.steps[q].cfg, run.steps[q].syms, Reached(run, q, m), m);
    SameTotals(run.steps[p].syms, k, run.steps[q].syms, m);
    KnownBetween(run, p, k, q, m);
    KnownTotal(Reached(run, p, k + 1).includes, Reached(run, q, m).includes, run.steps[p].syms[k].name, total);
    var syms := run.steps[q].syms;
    forall j | m < j < |syms| && syms[j].typ != N_BINCL && Balanced(syms[m + 1..j])
      ensures j in Marks(syms, m + 1, 0)
    {
      assert syms[m + 1..m + 1] == [];
      DepthEmpty();
      MarksAreOwn(syms, m, m + 1, 0, j);
    }
  }
}
