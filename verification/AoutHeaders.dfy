// Folding duplicate header stabs keeps N_BINCL/N_EINCL brackets nested, and opens each header's
// bracket once.
module AoutHeaders {
  import opened Bytes
  import opened AoutReloc
  import opened AoutSymtab
  import opened AoutRenumber

  // ---- brackets --------------------------------------------------------

  predicate IsBracket(t: byte) { t == N_BINCL || t == N_EINCL }

  /** The nesting depth after `ss`; None once a bracket has closed that was never opened. */
  function Depth(ss: seq<Nlist>): Option<nat> {
    if ss == [] then Some(0)
    else
      var d, t := Depth(ss[..|ss| - 1]), ss[|ss| - 1].typ;
      if d.None? then None
      else if t == N_BINCL then Some(d.value + 1)
      else if t == N_EINCL then (if d.value == 0 then None else Some(d.value - 1))
      else d
  }

  predicate Balanced(ss: seq<Nlist>) { Depth(ss) == Some(0) }

  lemma DepthNext(ss: seq<Nlist>, s: Nlist)
    ensures Depth(ss + [s]) == (var d := Depth(ss);
      if d.None? then None
      else if s.typ == N_BINCL then Some(d.value + 1)
      else if s.typ == N_EINCL then (if d.value == 0 then None else Some(d.value - 1))
      else d)
  {
    assert (ss + [s])[..|ss|] == ss;
  }

  /** Depths of prefixes of a balanced list are defined. */
  lemma {:induction false} PrefixDepth(ss: seq<Nlist>, k: nat)
    requires k <= |ss| && Depth(ss).Some?
    ensures Depth(ss[..k]).Some?
    decreases |ss| - k
  {
    if k == |ss| {
      assert ss[..k] == ss;
    } else {
      PrefixDepth(ss, k + 1);
      assert ss[..k + 1][..k] == ss[..k];
    }
  }

  /** The N_EINCL that closes the bracket `nest` levels out from position `j`. */
  function Match(syms: seq<Nlist>, j: nat, nest: nat): (m: nat)
    ensures j <= |syms| ==> j <= m <= |syms|
    ensures m < |syms| ==> m >= j && syms[m].typ == N_EINCL
    decreases |syms| - j
  {
    if j >= |syms| then |syms|
    else if syms[j].typ == N_EINCL then (if nest == 0 then j else Match(syms, j + 1, nest - 1))
    else if syms[j].typ == N_BINCL then Match(syms, j + 1, nest + 1)
    else Match(syms, j + 1, nest)
  }

  lemma MatchLater(syms: seq<Nlist>, j: nat, nest: nat)
    requires j < |syms| && nest > 0
    ensures Match(syms, j, nest) > j
  {
  }

  /** Of the brackets, a duplicate header drops exactly its own N_EINCL. */
  lemma {:induction false} MarksBrackets(syms: seq<Nlist>, j: nat, nest: nat, k: nat)
    requires k < |syms| && IsBracket(syms[k].typ)
    ensures k in Marks(syms, j, nest) <==> k == Match(syms, j, nest)
    decreases |syms| - j
  {
    if j < |syms| {
      if syms[j].typ == N_EINCL {
        if nest > 0 {
          MarksBrackets(syms, j + 1, nest - 1, k);
        }
      } else if syms[j].typ == N_BINCL {
        MarksBrackets(syms, j + 1, nest + 1, k);
      } else {
        MarksBrackets(syms, j + 1, nest, k);
      }
    }
  }

  // ---- the setting -----------------------------------------------------

  /** A type the symbol loop takes for an indirect or a warning symbol: the next one is its target. */
  predicate Leads(t: byte) { TypeBits(t) == N_INDR || t == N_WARNING }

  /** Header brackets are local symbols, and none is the target of the symbol before it. */
  predicate Plain(syms: seq<Nlist>, symHash: seq<Option<Name>>)
    requires |symHash| == |syms|
  {
    forall i :: 0 <= i < |syms| && IsBracket(syms[i].typ) ==> symHash[i].None? && (i > 0 ==> !Leads(syms[i - 1].typ))
  }

  /** Whether the options keep a local symbol. */
  predicate Kept(cfg: Config, s: Nlist) {
    !Stripped(cfg, s, s.name) && !Discarded(cfg, s.typ, s.name)
  }

  /** What is to be passed or skipped next is no bracket, and of two symbols in a row that are none, both are
      marked or neither. */
  predicate InTurn(syms: seq<Nlist>, st: State, k: nat)
    requires StateOk(syms, st)
  {
    && Plain(syms, st.symHash)
    && !(st.pass && st.skipNext)
    && ((st.pass || st.skipNext) && k < |syms| ==> !IsBracket(syms[k].typ) && st.smap[k] != -1)
    && forall j :: k < j < |syms| && !IsBracket(syms[j - 1].typ) && !IsBracket(syms[j].typ) ==>
         (st.smap[j - 1] == -1 <==> st.smap[j] == -1)
  }

  lemma BracketTypes(cfg: Config, s: Nlist)
    requires IsBracket(s.typ)
    ensures Classify(cfg, s, None) == Written(s.typ, SectionValue(ABS_SECTION, s.value), false, false)
    ensures !Leads(s.typ)
  {
    hide SectionValue;
    assert TypeBits(N_BINCL) == N_ABS && TypeBits(N_EINCL) == N_ABS;
  }

  lemma OtherTypes(cfg: Config, s: Nlist, h: Option<HashType>)
    requires !IsBracket(s.typ)
    ensures var w := Classify(cfg, s, h);
      !IsBracket(w.typ) && (w.pass || w.skipNext ==> Leads(s.typ)) && !(w.pass && w.skipNext)
  {
    hide SectionValue;
    if h.Some? && h.value.Def? {
      SmallDefined(s.typ, h.value.sec, h.value.weak);
    }
  }

  lemma SmallDefined(t: byte, sec: Section, weak: bool)
    ensures !IsStab(t) ==> !IsStab(DefinedType(t, sec, weak))
  {
    assert t < 0x20 ==> t == TypeBits(t) + t % 2;
  }

  /** One step on a bracket: the records it adds, and what it marks. */
  lemma BracketStep(cfg: Config, syms: seq<Nlist>, st: State, i: nat)
    requires StateOk(syms, st) && i < |syms| && IsBracket(syms[i].typ) && st.symHash[i].None?
    requires !st.pass && !st.skipNext
    ensures var r, s := Step(cfg, syms, st, i), syms[i];
      && !r.pass && !r.skipNext && r.symHash == st.symHash
      && (st.smap[i] == -1 ==> r == st)
      && (!Kept(cfg, s) ==> r.out == st.out)
      && (!Kept(cfg, s) || s.typ == N_EINCL ==>
            r.includes == st.includes && forall j :: i < j < |syms| ==> r.smap[j] == st.smap[j])
      && (st.smap[i] != -1 && Kept(cfg, s) && s.typ == N_BINCL ==>
            var total, seen := HeaderTotal(syms, i), Totals(st.includes, s.name);
            && r.out == st.out + [Nlist(if total in seen then N_EXCL else N_BINCL, s.other, s.desc, s.name,
              total % TWO32)]
            && r.includes == (if total in seen then st.includes else st.includes[s.name := seen + [total]])
            && forall j :: i < j < |syms| ==>
                 r.smap[j] == if total in seen && j in Marks(syms, i + 1, 0) then -1 else st.smap[j])
      && (st.smap[i] != -1 && Kept(cfg, s) && s.typ == N_EINCL ==>
            |r.out| == |st.out| + 1 && st.out <= r.out && r.out[|st.out|].typ == N_EINCL)
  {
    hide Classify, Marks, HeaderTotal, TypeBits, Totals, Stripped, Discarded;
    BracketTypes(cfg, syms[i]);
  }

  /** One step on any other symbol. */
  lemma OtherStep(cfg: Config, syms: seq<Nlist>, st: State, i: nat)
    requires StateOk(syms, st) && i < |syms| && !IsBracket(syms[i].typ) && !(st.pass && st.skipNext)
    ensures var r := Step(cfg, syms, st, i);
      && (r.out == st.out || (|r.out| == |st.out| + 1 && st.out <= r.out && !IsBracket(r.out[|st.out|].typ)))
      && r.includes == st.includes && (forall j :: i < j < |syms| ==> r.smap[j] == st.smap[j])
      && (st.smap[i] == -1 ==> r == st)
      && (st.smap[i] != -1 && (r.pass || r.skipNext) ==> Leads(syms[i].typ)) && !(r.pass && r.skipNext)
      && (forall j :: 0 <= j < |syms| && j != i ==> r.symHash[j] == st.symHash[j])
  {
    hide Classify, TypeBits, ResolvedType, Resolve, Stripped, Discarded, StepGlobal;
    var st1 := st.(smap := st.smap[i := -1]);
    OtherTypes(cfg, syms[i], None);
    if st.smap[i] != -1 && !st.pass && !st.skipNext && EntryOf(st1, i).Some? {
      OtherGlobal(cfg, syms, st1, i, EntryOf(st1, i).value);
    }
  }

  lemma OtherGlobal(cfg: Config, syms: seq<Nlist>, st: State, i: nat, e: Entry)
    requires StateOk(syms, st) && i < |syms| && !IsBracket(syms[i].typ) && EntryOf(st, i) == Some(e)
    requires !st.pass && !st.skipNext
    ensures var r := StepGlobal(cfg, syms, st, i, e);
      && (r.out == st.out || (|r.out| == |st.out| + 1 && st.out <= r.out && !IsBracket(r.out[|st.out|].typ)))
      && r.includes == st.includes && (forall j :: i < j < |syms| ==> r.smap[j] == st.smap[j])
      && (r.pass || r.skipNext ==> Leads(syms[i].typ)) && !(r.pass && r.skipNext)
      && (forall j :: 0 <= j < |syms| && j != i ==> r.symHash[j] == st.symHash[j])
  {
    hide Classify, TypeBits, ResolvedType, Resolve, Stripped;
    OtherTypes(cfg, syms[i], Some(ResolvedType(
      (if e.typ.Indirect? || e.typ.Warning? then
         st.(symHash := st.symHash[i := Some(Resolve(st.hash, st.symHash[i].value, {}))])
       else st).hash, st.symHash[i].value)));
  }

  /** Two symbols in a row that are no brackets stand in the same header. */
  lemma {:induction false} MarksInTurn(syms: seq<Nlist>, i: nat, nest: nat, j: nat)
    requires i < j < |syms| && !IsBracket(syms[j - 1].typ) && !IsBracket(syms[j].typ)
    ensures j - 1 in Marks(syms, i, nest) <==> j in Marks(syms, i, nest)
    decreases |syms| - i
  {
    if i == j - 1 {
      MarksAt(syms, i, nest);
      MarksAt(syms, j, nest);
    } else if syms[i].typ == N_EINCL {
      if nest > 0 {
        MarksInTurn(syms, i + 1, nest - 1, j);
      }
    } else if syms[i].typ == N_BINCL {
      MarksInTurn(syms, i + 1, nest + 1, j);
    } else {
      MarksInTurn(syms, i + 1, nest, j);
    }
  }

  lemma MarksAt(syms: seq<Nlist>, i: nat, nest: nat)
    requires i < |syms| && !IsBracket(syms[i].typ)
    ensures i in Marks(syms, i, nest) <==> nest == 0
    ensures forall k :: k > i ==> (k in Marks(syms, i, nest) <==> k in Marks(syms, i + 1, nest))
  {
  }

  /** A step keeps the turn. */
  lemma TurnKept(cfg: Config, syms: seq<Nlist>, st: State, k: nat)
    requires StateOk(syms, st) && k < |syms| && InTurn(syms, st, k)
    ensures InTurn(syms, Step(cfg, syms, st, k), k + 1)
  {
    hide Step, Leads, Kept, HeaderTotal, Totals, Marks;
    if IsBracket(syms[k].typ) {
      BracketStep(cfg, syms, st, k);
      forall j | k + 1 < j < |syms| && !IsBracket(syms[j - 1].typ) && !IsBracket(syms[j].typ)
        ensures j - 1 in Marks(syms, k + 1, 0) <==> j in Marks(syms, k + 1, 0)
      {
        MarksInTurn(syms, k + 1, 0, j);
      }
    } else {
      OtherStep(cfg, syms, st, k);
    }
  }

  // ---- the loop --------------------------------------------------------

  /** What became of an open bracket: left standing, folded into an N_EXCL, or dropped by the options. */
  datatype Level = Standing | Folded | Dropped

  /** The brackets of the input that are open after `k` symbols, innermost last. */
  function Open(cfg: Config, syms: seq<Nlist>, st: State, k: nat): seq<Level>
    requires StateOk(syms, st) && k <= |syms|
  {
    if k == 0 then []
    else
      var open, s := Open(cfg, syms, st, k - 1), syms[k - 1];
      if s.typ == N_BINCL then open + [Opens(cfg, syms, st, k - 1)]
      else if s.typ == N_EINCL && open != [] then open[..|open| - 1]
      else open
  }

  function Opens(cfg: Config, syms: seq<Nlist>, st: State, k: nat): Level
    requires StateOk(syms, st) && k < |syms|
  {
    if !Kept(cfg, syms[k]) then Dropped
    else if HeaderTotal(syms, k) in Totals(RunTo(cfg, syms, st, k).includes, syms[k].name) then Folded
    else Standing
  }

  /** The brackets among the first `k` symbols that neither options nor folding remove: ends go with the
      bracket they close if that was folded, and by themselves otherwise. */
  function Surviving(cfg: Config, syms: seq<Nlist>, st: State, k: nat): seq<Nlist>
    requires StateOk(syms, st) && k <= |syms|
  {
    if k == 0 then []
    else
      var rest, s := Surviving(cfg, syms, st, k - 1), syms[k - 1];
      if s.typ == N_BINCL && Opens(cfg, syms, st, k - 1).Standing? then rest + [s]
      else if s.typ == N_EINCL && Kept(cfg, s) && !Closes(Open(cfg, syms, st, k - 1)).Folded? then rest + [s]
      else rest
  }

  function Closes(open: seq<Level>): Level { if open == [] then Standing else open[|open| - 1] }

  /** Every bracket is kept with its end or dropped with it, unless it was folded. */
  predicate Paired(cfg: Config, syms: seq<Nlist>, st: State)
    requires StateOk(syms, st)
  {
    forall k :: 0 <= k < |syms| && syms[k].typ == N_EINCL ==> PairedAt(cfg, syms, st, k)
  }

  predicate PairedAt(cfg: Config, syms: seq<Nlist>, st: State, k: nat)
    requires StateOk(syms, st) && k < |syms|
  {
    var l := Closes(Open(cfg, syms, st, k));
    l.Folded? || (l.Standing? <==> Kept(cfg, syms[k]))
  }

  /** The open brackets of the output. */
  function Unfolded(open: seq<Level>): nat {
    if open == [] then 0 else Unfolded(open[..|open| - 1]) + if open[|open| - 1].Standing? then 1 else 0
  }

  /** One of the open brackets, the innermost of them `nest` levels out, was folded and closes at `j`. */
  predicate ClosesFolded(syms: seq<Nlist>, open: seq<Level>, k: nat, j: nat, nest: nat) {
    open != [] &&
    (var n := |open| - 1;
     (open[n].Folded? && j == Match(syms, k, nest)) || ClosesFolded(syms, open[..n], k, j, nest + 1))
  }

  /** How the levels shift from one symbol to the next. */
  lemma {:induction false} ClosesNext(syms: seq<Nlist>, open: seq<Level>, k: nat, j: nat, nest: nat)
    requires k < |syms|
    ensures !IsBracket(syms[k].typ) ==> ClosesFolded(syms, open, k, j, nest) == ClosesFolded(syms, open, k + 1, j, nest)
    ensures syms[k].typ == N_BINCL ==>
      ClosesFolded(syms, open, k, j, nest) == ClosesFolded(syms, open, k + 1, j, nest + 1)
    ensures syms[k].typ == N_EINCL && nest > 0 ==>
      ClosesFolded(syms, open, k, j, nest) == ClosesFolded(syms, open, k + 1, j, nest - 1)
    ensures nest > 0 ==> !ClosesFolded(syms, open, k, k, nest)
  {
    if open != [] {
      ClosesNext(syms, open[..|open| - 1], k, j, nest + 1);
      if nest > 0 {
        MatchLater(syms, k, nest);
      }
    }
  }

  /** Of the brackets still to come, exactly the ends of folded headers are marked to be dropped. */
  predicate MarksAhead(syms: seq<Nlist>, smap: seq<int>, open: seq<Level>, k: nat)
    requires |smap| == |syms|
  {
    forall j :: k <= j < |syms| && IsBracket(syms[j].typ) ==> (smap[j] == -1 <==> ClosesFolded(syms, open, k, j, 0))
  }

  lemma AheadPlain(syms: seq<Nlist>, m: seq<int>, m': seq<int>, open: seq<Level>, k: nat)
    requires k < |syms| == |m| == |m'| && !IsBracket(syms[k].typ) && MarksAhead(syms, m, open, k)
    requires forall j :: k < j < |syms| ==> m'[j] == m[j]
    ensures MarksAhead(syms, m', open, k + 1)
  {
    hide ClosesFolded;
    forall j | k + 1 <= j < |syms| && IsBracket(syms[j].typ)
      ensures m'[j] == -1 <==> ClosesFolded(syms, open, k + 1, j, 0)
    {
      ClosesNext(syms, open, k, j, 0);
    }
  }

  lemma AheadOpens(syms: seq<Nlist>, m: seq<int>, m': seq<int>, open: seq<Level>, k: nat, l: Level)
    requires k < |syms| == |m| == |m'| && syms[k].typ == N_BINCL && MarksAhead(syms, m, open, k)
    requires forall j :: k < j < |syms| ==> m'[j] == if l.Folded? && j in Marks(syms, k + 1, 0) then -1 else m[j]
    ensures MarksAhead(syms, m', open + [l], k + 1)
    ensures !ClosesFolded(syms, open, k, k, 0)
  {
    hide Marks, ClosesFolded;
    ClosesNext(syms, open, k, k, 0);
    ClosesNotOpen(syms, open, k, 0);
    forall j | k + 1 <= j < |syms| && IsBracket(syms[j].typ)
      ensures m'[j] == -1 <==> ClosesFolded(syms, open + [l], k + 1, j, 0)
    {
      MarksBrackets(syms, k + 1, 0, j);
      ClosesNext(syms, open, k, j, 0);
      ClosesLast(syms, open, l, k + 1, j, 0);
    }
  }

  lemma ClosesLast(syms: seq<Nlist>, open: seq<Level>, l: Level, k: nat, j: nat, nest: nat)
    ensures ClosesFolded(syms, open + [l], k, j, nest)
      <==> (l.Folded? && j == Match(syms, k, nest)) || ClosesFolded(syms, open, k, j, nest + 1)
  {
    assert (open + [l])[..|open|] == open;
  }

  /** Nothing closes at a symbol that opens. */
  lemma {:induction false} ClosesNotOpen(syms: seq<Nlist>, open: seq<Level>, k: nat, nest: nat)
    requires k < |syms| && syms[k].typ == N_BINCL
    ensures !ClosesFolded(syms, open, k, k, nest)
  {
    if open != [] {
      ClosesNotOpen(syms, open[..|open| - 1], k, nest + 1);
    }
  }

  lemma AheadCloses(syms: seq<Nlist>, m: seq<int>, m': seq<int>, open: seq<Level>, k: nat)
    requires k < |syms| == |m| == |m'| && syms[k].typ == N_EINCL && open != [] && MarksAhead(syms, m, open, k)
    requires forall j :: k < j < |syms| ==> m'[j] == m[j]
    ensures m[k] == -1 <==> open[|open| - 1].Folded?
    ensures MarksAhead(syms, m', open[..|open| - 1], k + 1)
  {
    hide ClosesFolded;
    var n := |open| - 1;
    assert open[..n] + [open[n]] == open;
    ClosesLast(syms, open[..n], open[n], k, k, 0);
    ClosesNext(syms, open[..n], k, k, 1);
    forall j | k + 1 <= j < |syms| && IsBracket(syms[j].typ)
      ensures m'[j] == -1 <==> ClosesFolded(syms, open[..n], k + 1, j, 0)
    {
      ClosesLast(syms, open[..n], open[n], k, j, 0);
      ClosesNext(syms, open[..n], k, j, 1);
    }
  }

  /** The invariant of the symbol loop: the input's depth is that of the open brackets, and the output's that
      of the brackets that survive. */
  ghost predicate FoldInv(cfg: Config, syms: seq<Nlist>, st: State, k: nat)
    requires StateOk(syms, st) && k <= |syms|
  {
    var r, open := RunTo(cfg, syms, st, k), Open(cfg, syms, st, k);
    && InTurn(syms, r, k)
    && Depth(syms[..k]) == Some(|open|)
    && st.out <= r.out && Depth(r.out[|st.out|..]) == Depth(Surviving(cfg, syms, st, k))
    && MarksAhead(syms, r.smap, open, k)
  }

  lemma DepthGrows(base: nat, out: seq<Nlist>, out': seq<Nlist>)
    requires base <= |out| && out <= out' && |out'| == |out| + 1
    ensures out'[base..] == out[base..] + [out'[|out|]]
  {
  }

  lemma FoldStep(cfg: Config, syms: seq<Nlist>, st: State, k: nat)
    requires StateOk(syms, st) && k < |syms| && FoldInv(cfg, syms, st, k) && Depth(syms[..k + 1]).Some?
    ensures FoldInv(cfg, syms, st, k + 1)
  {
    hide Step, InTurn, MarksAhead, Opens, Surviving, Depth, Kept;
    TurnKept(cfg, syms, RunTo(cfg, syms, st, k), k);
    assert syms[..k + 1] == syms[..k] + [syms[k]];
    DepthNext(syms[..k], syms[k]);
    if syms[k].typ == N_BINCL {
      FoldOpens(cfg, syms, st, k);
    } else if syms[k].typ == N_EINCL {
      FoldCloses(cfg, syms, st, k);
    } else {
      FoldOther(cfg, syms, st, k);
    }
  }

  lemma FoldOther(cfg: Config, syms: seq<Nlist>, st: State, k: nat)
    requires StateOk(syms, st) && k < |syms| && FoldInv(cfg, syms, st, k) && !IsBracket(syms[k].typ)
    ensures var r', open' := RunTo(cfg, syms, st, k + 1), Open(cfg, syms, st, k + 1);
      && st.out <= r'.out && Depth(r'.out[|st.out|..]) == Depth(Surviving(cfg, syms, st, k + 1))
      && MarksAhead(syms, r'.smap, open', k + 1)
  {
    hide Step, InTurn, MarksAhead, Opens, Depth, Kept;
    var r := RunTo(cfg, syms, st, k);
    var r' := Step(cfg, syms, r, k);
    InTurnOne(syms, r, k);
    OtherStep(cfg, syms, r, k);
    Grows(|st.out|, r.out, r'.out, Surviving(cfg, syms, st, k));
    AheadPlain(syms, r.smap, r'.smap, Open(cfg, syms, st, k), k);
  }

  /** A record that is no bracket does not change the depth. */
  lemma Grows(base: nat, out: seq<Nlist>, out': seq<Nlist>, kept: seq<Nlist>)
    requires base <= |out| && Depth(out[base..]) == Depth(kept)
    requires out' == out || (|out'| == |out| + 1 && out <= out' && !IsBracket(out'[|out|].typ))
    ensures Depth(out'[base..]) == Depth(kept)
  {
    if out' != out {
      DepthGrows(base, out, out');
      DepthNext(out[base..], out'[|out|]);
    }
  }

  /** A bracket written for one that survives. */
  lemma GrowsBoth(base: nat, out: seq<Nlist>, out': seq<Nlist>, kept: seq<Nlist>, s: Nlist)
    requires base <= |out| && Depth(out[base..]) == Depth(kept)
    requires |out'| == |out| + 1 && out <= out' && out'[|out|].typ == s.typ
    ensures Depth(out'[base..]) == Depth(kept + [s])
  {
    DepthGrows(base, out, out');
    DepthNext(out[base..], out'[|out|]);
    DepthNext(kept, s);
  }

  lemma InTurnBracket(syms: seq<Nlist>, r: State, k: nat)
    requires StateOk(syms, r) && k < |syms| && IsBracket(syms[k].typ) && InTurn(syms, r, k)
    ensures !r.pass && !r.skipNext && r.symHash[k].None?
  {
  }

  lemma InTurnOne(syms: seq<Nlist>, r: State, k: nat)
    requires StateOk(syms, r) && InTurn(syms, r, k)
    ensures !(r.pass && r.skipNext)
  {
  }

  lemma FoldOpens(cfg: Config, syms: seq<Nlist>, st: State, k: nat)
    requires StateOk(syms, st) && k < |syms| && FoldInv(cfg, syms, st, k) && syms[k].typ == N_BINCL
    ensures var r', open' := RunTo(cfg, syms, st, k + 1), Open(cfg, syms, st, k + 1);
      && st.out <= r'.out && Depth(r'.out[|st.out|..]) == Depth(Surviving(cfg, syms, st, k + 1))
      && MarksAhead(syms, r'.smap, open', k + 1)
  {
    hide Step, InTurn, MarksAhead, Marks, HeaderTotal, Totals, ClosesFolded, Kept, Depth;
    var r, open, s := RunTo(cfg, syms, st, k), Open(cfg, syms, st, k), syms[k];
    var r', kept := Step(cfg, syms, r, k), Surviving(cfg, syms, st, k);
    InTurnBracket(syms, r, k);
    BracketStep(cfg, syms, r, k);
    NotMarkedOpen(syms, r.smap, open, k);
    AheadOpens(syms, r.smap, r'.smap, open, k, Opens(cfg, syms, st, k));
    if Opens(cfg, syms, st, k).Standing? {
      GrowsBoth(|st.out|, r.out, r'.out, kept, s);
    } else {
      Grows(|st.out|, r.out, r'.out, kept);
    }
  }

  lemma FoldCloses(cfg: Config, syms: seq<Nlist>, st: State, k: nat)
    requires StateOk(syms, st) && k < |syms| && FoldInv(cfg, syms, st, k) && syms[k].typ == N_EINCL
    requires Depth(syms[..k + 1]).Some?
    ensures var r', open' := RunTo(cfg, syms, st, k + 1), Open(cfg, syms, st, k + 1);
      && st.out <= r'.out && Depth(r'.out[|st.out|..]) == Depth(Surviving(cfg, syms, st, k + 1))
      && MarksAhead(syms, r'.smap, open', k + 1)
  {
    hide Step, InTurn, MarksAhead, Marks, HeaderTotal, Totals, ClosesFolded, Kept, Depth;
    var r, open, s := RunTo(cfg, syms, st, k), Open(cfg, syms, st, k), syms[k];
    var r', kept := Step(cfg, syms, r, k), Surviving(cfg, syms, st, k);
    assert syms[..k + 1] == syms[..k] + [s];
    DepthNext(syms[..k], s);
    InTurnBracket(syms, r, k);
    BracketStep(cfg, syms, r, k);
    AheadCloses(syms, r.smap, r'.smap, open, k);
    if Kept(cfg, s) && !Closes(open).Folded? {
      GrowsBoth(|st.out|, r.out, r'.out, kept, s);
    }
  }

  lemma NotMarkedOpen(syms: seq<Nlist>, m: seq<int>, open: seq<Level>, k: nat)
    requires k < |syms| == |m| && syms[k].typ == N_BINCL && MarksAhead(syms, m, open, k)
    ensures m[k] != -1
  {
    ClosesNotOpen(syms, open, k, 0);
  }

  lemma {:induction false} FoldRun(cfg: Config, syms: seq<Nlist>, st: State, k: nat)
    requires StateOk(syms, st) && k <= |syms| && Plain(syms, st.symHash) && !st.pass && !st.skipNext
    requires (forall j :: 0 <= j < |syms| ==> st.smap[j] == 0) && Depth(syms).Some?
    ensures FoldInv(cfg, syms, st, k)
  {
    hide Plain, FoldInv;
    if k == 0 {
      FoldStart(cfg, syms, st);
    } else {
      FoldRun(cfg, syms, st, k - 1);
      PrefixDepth(syms, k);
      FoldStep(cfg, syms, st, k - 1);
    }
  }

  lemma FoldStart(cfg: Config, syms: seq<Nlist>, st: State)
    requires StateOk(syms, st) && Plain(syms, st.symHash) && !st.pass && !st.skipNext
    requires forall j :: 0 <= j < |syms| ==> st.smap[j] == 0
    ensures FoldInv(cfg, syms, st, 0)
  {
    hide Plain;
    assert st.out[|st.out|..] == [];
  }

  lemma UnfoldedNext(open: seq<Level>, l: Level)
    ensures Unfolded(open + [l]) == Unfolded(open) + if l.Standing? then 1 else 0
  {
    assert (open + [l])[..|open|] == open;
  }

  /** The input's depth is the number of open brackets. */
  lemma {:induction false} OpenDepth(cfg: Config, syms: seq<Nlist>, st: State, k: nat)
    requires StateOk(syms, st) && k <= |syms| && Depth(syms[..k]).Some?
    ensures Depth(syms[..k]) == Some(|Open(cfg, syms, st, k)|)
  {
    hide Opens;
    if k > 0 {
      PrefixDepth(syms[..k], k - 1);
      assert syms[..k][..k - 1] == syms[..k - 1];
      OpenDepth(cfg, syms, st, k - 1);
      assert syms[..k] == syms[..k - 1] + [syms[k - 1]];
      DepthNext(syms[..k - 1], syms[k - 1]);
    }
  }

  /** A bracket that closes has one to close. */
  lemma SomeOpen(cfg: Config, syms: seq<Nlist>, st: State, k: nat)
    requires StateOk(syms, st) && k < |syms| && syms[k].typ == N_EINCL && Depth(syms).Some?
    ensures Open(cfg, syms, st, k) != []
  {
    hide Open;
    PrefixDepth(syms, k);
    PrefixDepth(syms, k + 1);
    assert syms[..k + 1] == syms[..k] + [syms[k]];
    DepthNext(syms[..k], syms[k]);
    OpenDepth(cfg, syms, st, k);
  }

  /** If brackets and their ends go together, what survives is nested. */
  lemma {:induction false} PairedDepth(cfg: Config, syms: seq<Nlist>, st: State, k: nat)
    requires StateOk(syms, st) && k <= |syms| && Paired(cfg, syms, st) && Depth(syms).Some?
    ensures Depth(Surviving(cfg, syms, st, k)) == Some(Unfolded(Open(cfg, syms, st, k)))
  {
    hide Kept, Opens, Depth, Paired;
    if k == 0 {
      DepthEmpty();
    } else {
      PairedDepth(cfg, syms, st, k - 1);
      var open, kept, s := Open(cfg, syms, st, k - 1), Surviving(cfg, syms, st, k - 1), syms[k - 1];
      DepthNext(kept, s);
      if s.typ == N_BINCL {
        UnfoldedNext(open, Opens(cfg, syms, st, k - 1));
      } else if s.typ == N_EINCL {
        PairedHere(cfg, syms, st, k - 1);
        SomeOpen(cfg, syms, st, k - 1);
        assert open == open[..|open| - 1] + [Closes(open)];
        UnfoldedNext(open[..|open| - 1], Closes(open));
      }
    }
  }

  lemma DepthEmpty()
    ensures Depth([]) == Some(0)
  {
  }

  lemma PairedHere(cfg: Config, syms: seq<Nlist>, st: State, k: nat)
    requires StateOk(syms, st) && k < |syms| && syms[k].typ == N_EINCL && Paired(cfg, syms, st)
    ensures PairedAt(cfg, syms, st, k)
  {
  }

  /** Only `strip_some` can tell a bracket from its end. */
  lemma AllPaired(cfg: Config, syms: seq<Nlist>, st: State)
    requires StateOk(syms, st) && Depth(syms).Some? && !cfg.strip.StripSome?
    ensures Paired(cfg, syms, st)
  {
    hide Kept, KeepsBrackets, Open;
    forall k | 0 <= k < |syms| && syms[k].typ == N_EINCL
      ensures PairedAt(cfg, syms, st, k)
    {
      LevelsAlike(cfg, syms, st, k);
      SomeOpen(cfg, syms, st, k);
      assert Closes(Open(cfg, syms, st, k)) in Open(cfg, syms, st, k);
    }
  }

  /** Whether the options keep brackets, where they do not look at names. */
  predicate KeepsBrackets(cfg: Config) {
    cfg.strip == StripNone && cfg.discard != DiscardAll
  }

  lemma BracketKept(cfg: Config, s: Nlist)
    requires IsBracket(s.typ) && !cfg.strip.StripSome?
    ensures Kept(cfg, s) <==> KeepsBrackets(cfg)
  {
  }

  /** An open bracket was dropped exactly if brackets are not kept. */
  predicate Alike(cfg: Config, open: seq<Level>) {
    forall l :: l in open ==> (l.Dropped? <==> !KeepsBrackets(cfg))
  }

  lemma {:induction false} LevelsAlike(cfg: Config, syms: seq<Nlist>, st: State, k: nat)
    requires StateOk(syms, st) && k <= |syms| && !cfg.strip.StripSome?
    ensures Alike(cfg, Open(cfg, syms, st, k))
    ensures k < |syms| && syms[k].typ == N_EINCL ==> (Kept(cfg, syms[k]) <==> KeepsBrackets(cfg))
  {
    hide KeepsBrackets, Kept, HeaderTotal, RunTo, Totals;
    if k < |syms| && syms[k].typ == N_EINCL {
      BracketKept(cfg, syms[k]);
    }
    if k > 0 {
      LevelsAlike(cfg, syms, st, k - 1);
      if syms[k - 1].typ == N_BINCL {
        BracketKept(cfg, syms[k - 1]);
      }
    }
  }

  /** The records of a call are nested exactly if the brackets are that survive folding and the options. */
  lemma NestingIff(cfg: Config, syms: seq<Nlist>, symHash: seq<Option<Name>>, hash: Hash, out: seq<Nlist>,
                   includes: Includes)
    requires |symHash| == |syms| && Balanced(syms) && Plain(syms, symHash)
    ensures var st, r := Start(cfg, |syms|, symHash, hash, out, includes),
                         WriteSymbols(cfg, syms, symHash, hash, out, includes);
      |r.out| >= |out| && (Balanced(r.out[|out|..]) <==> Balanced(Surviving(cfg, syms, st, |syms|)))
  {
    hide Plain, RunTo, MarksAhead, Open, InTurn, Surviving, Depth, FoldInv, WritesFile;
    var st := Start(cfg, |syms|, symHash, hash, out, includes);
    FoldRun(cfg, syms, st, |syms|);
    var r := RunTo(cfg, syms, st, |syms|);
    FoldEnds(cfg, syms, st);
    var file, records := if WritesFile(cfg) then [FileSymbol(cfg)] else [], r.out[|st.out|..];
    assert st.out == out + file;
    OutIs(out, file, r.out);
    if WritesFile(cfg) {
      DepthPrefix(FileSymbol(cfg), records);
    } else {
      assert [] + records == records;
    }
  }

  lemma FoldEnds(cfg: Config, syms: seq<Nlist>, st: State)
    requires StateOk(syms, st) && FoldInv(cfg, syms, st, |syms|)
    ensures var r := RunTo(cfg, syms, st, |syms|);
      st.out <= r.out && Depth(r.out[|st.out|..]) == Depth(Surviving(cfg, syms, st, |syms|))
  {
  }

  lemma OutIs(a: seq<Nlist>, b: seq<Nlist>, out: seq<Nlist>)
    requires a + b <= out
    ensures |a| <= |out| && out[|a|..] == b + out[|a + b|..]
  {
    assert out == (a + b) + out[|a + b|..];
  }

  /** Folding keeps nesting, whatever is stripped or discarded: if the input's header brackets balance, so do
      those of the records written for it, provided that the options keep or drop each unfolded bracket
      together with its end, as all but `strip_some` do. */
  lemma FoldingKeepsNesting(cfg: Config, syms: seq<Nlist>, symHash: seq<Option<Name>>, hash: Hash, out: seq<Nlist>,
                            includes: Includes)
    requires |symHash| == |syms| && Balanced(syms) && Plain(syms, symHash)
    requires !cfg.strip.StripSome? || Paired(cfg, syms, Start(cfg, |syms|, symHash, hash, out, includes))
    ensures var r := WriteSymbols(cfg, syms, symHash, hash, out, includes);
      |r.out| >= |out| && Balanced(r.out[|out|..])
  {
    hide Plain, RunTo, Open, Surviving, Paired, WriteSymbols;
    var st := Start(cfg, |syms|, symHash, hash, out, includes);
    if !cfg.strip.StripSome? {
      AllPaired(cfg, syms, st);
    }
    NestingIff(cfg, syms, symHash, hash, out, includes);
    PairedDepth(cfg, syms, st, |syms|);
    assert syms[..|syms|] == syms;
    OpenDepth(cfg, syms, st, |syms|);
    assert Open(cfg, syms, st, |syms|) == [];
  }

  lemma {:induction false} DepthPrefix(s: Nlist, ss: seq<Nlist>)
    requires !IsBracket(s.typ)
    ensures Depth([s] + ss) == Depth(ss)
  {
    if ss == [] {
      assert [s] + ss == [] + [s];
      DepthNext([], s);
    } else {
      var n := |ss| - 1;
      DepthPrefix(s, ss[..n]);
      assert [s] + ss == ([s] + ss[..n]) + [ss[n]];
      DepthNext([s] + ss[..n], ss[n]);
    }
  }

  // ---- each header is opened once --------------------------------------

  /** The values of the records that open a bracket for header `n`, in order. */
  function Opened(out: seq<Nlist>, n: Name): seq<nat> {
    if out == [] then []
    else
      var r := out[|out| - 1];
      Opened(out[..|out| - 1], n) + (if r.typ == N_BINCL && r.name == n then [r.value] else [])
  }

  function Truncated(totals: seq<nat>): (r: seq<nat>)
    ensures |r| == |totals|
  {
    seq(|totals|, i requires 0 <= i < |totals| => totals[i] % TWO32)
  }

  predicate Distinct(s: seq<nat>) {
    forall i, j :: 0 <= i < j < |s| ==> s[i] != s[j]
  }

  /** The table of headers lists exactly the totals with which each name has been opened, and no total
      twice. */
  ghost predicate OpensOk(out: seq<Nlist>, includes: Includes) {
    forall n: Name :: Opened(out, n) == Truncated(Totals(includes, n)) && Distinct(Totals(includes, n))
  }

  lemma OpenedNext(out: seq<Nlist>, r: Nlist, n: Name)
    ensures Opened(out + [r], n) == Opened(out, n) + (if r.typ == N_BINCL && r.name == n then [r.value] else [])
  {
    assert (out + [r])[..|out|] == out;
  }

  lemma OpensPlain(out: seq<Nlist>, r: Nlist, includes: Includes)
    requires OpensOk(out, includes) && r.typ != N_BINCL
    ensures OpensOk(out + [r], includes)
  {
    forall n: Name
      ensures Opened(out + [r], n) == Truncated(Totals(includes, n)) && Distinct(Totals(includes, n))
    {
      OpenedNext(out, r, n);
    }
  }

  lemma OpensNew(out: seq<Nlist>, r: Nlist, includes: Includes, total: nat)
    requires OpensOk(out, includes) && r.typ == N_BINCL && r.value == total % TWO32
    requires total !in Totals(includes, r.name)
    ensures OpensOk(out + [r], includes[r.name := Totals(includes, r.name) + [total]])
  {
    var includes' := includes[r.name := Totals(includes, r.name) + [total]];
    forall n: Name
      ensures Opened(out + [r], n) == Truncated(Totals(includes', n)) && Distinct(Totals(includes', n))
    {
      OpenedNext(out, r, n);
      assert Truncated(Totals(includes, r.name) + [total]) == Truncated(Totals(includes, r.name)) + [total % TWO32];
    }
  }

  lemma OneMore(out: seq<Nlist>, out': seq<Nlist>)
    requires out <= out' && |out'| == |out| + 1
    ensures out' == out + [out'[|out|]]
  {
  }

  lemma OpensStep(cfg: Config, syms: seq<Nlist>, st: State, k: nat)
    requires StateOk(syms, st) && k < |syms| && InTurn(syms, st, k) && OpensOk(st.out, st.includes)
    ensures var r := Step(cfg, syms, st, k); OpensOk(r.out, r.includes) && InTurn(syms, r, k + 1)
  {
    hide Step, InTurn, OpensOk, HeaderTotal, Totals, Marks, Kept;
    var r, s := Step(cfg, syms, st, k), syms[k];
    TurnKept(cfg, syms, st, k);
    if IsBracket(s.typ) {
      InTurnBracket(syms, st, k);
      BracketStep(cfg, syms, st, k);
      var total := HeaderTotal(syms, k);
      if st.smap[k] != -1 && Kept(cfg, s) && s.typ == N_BINCL && total !in Totals(st.includes, s.name) {
        OpensNew(st.out, r.out[|st.out|], st.includes, total);
      } else if |r.out| == |st.out| + 1 {
        OneMore(st.out, r.out);
        OpensPlain(st.out, r.out[|st.out|], st.includes);
      }
    } else {
      InTurnOne(syms, st, k);
      OtherStep(cfg, syms, st, k);
      if r.out != st.out {
        OneMore(st.out, r.out);
        OpensPlain(st.out, r.out[|st.out|], st.includes);
      }
    }
  }

  lemma {:induction false} OpensRun(cfg: Config, syms: seq<Nlist>, st: State, k: nat)
    requires StateOk(syms, st) && k <= |syms| && InTurn(syms, st, 0) && OpensOk(st.out, st.includes)
    ensures var r := RunTo(cfg, syms, st, k); OpensOk(r.out, r.includes) && InTurn(syms, r, k)
  {
    hide InTurn, OpensOk, Step;
    if k > 0 {
      OpensRun(cfg, syms, st, k - 1);
      OpensStep(cfg, syms, RunTo(cfg, syms, st, k - 1), k - 1);
    }
  }

  lemma OtherNotBracket(n: Name, typ: HashType)
    ensures OtherRecord(n, typ).Some? ==> OtherRecord(n, typ).value.typ != N_BINCL
  {
  }

  lemma OpensOther(strip: Strip, keep: set<Name>, hash: Hash, out: seq<Nlist>, n: Name, includes: Includes)
    requires n in hash && OpensOk(out, includes)
    ensures OpensOk(WriteOther(strip, keep, hash, out, n).1, includes)
  {
    hide OpensOk, OtherRecord;
    var t := if hash[n].typ.Warning? then hash[n].typ.link else n;
    if t in hash {
      OtherNotBracket(t, hash[t].typ);
      if OtherRecord(t, hash[t].typ).Some? {
        OpensPlain(out, OtherRecord(t, hash[t].typ).value, includes);
      }
    }
  }

  /** In every input header brackets are local and follow no symbol that leads to another. */
  predicate PlainInputs(steps: seq<LinkStep>) {
    forall k :: 0 <= k < |steps| && steps[k].WriteInput? && |steps[k].symHash| == |steps[k].syms| ==>
      Plain(steps[k].syms, steps[k].symHash)
  }

  /** Over a whole link, whatever is stripped or discarded, no header is opened twice with the same contents:
      the records that open `n` carry pairwise different totals. */
  lemma {:induction false} HeadersOpenedOnce(strip: Strip, keep: set<Name>, t: Table, steps: seq<LinkStep>)
    requires OpensOk(t.out, t.includes) && PlainInputs(steps)
    ensures var r := AfterSteps(strip, keep, t, steps); OpensOk(r.out, r.includes)
  {
    hide OpensOk, Plain, WriteOther, RunTo, HashOk;
    if steps != [] {
      var n := |steps| - 1;
      var u, s := AfterSteps(strip, keep, t, steps[..n]), steps[n];
      HeadersOpenedOnce(strip, keep, t, steps[..n]);
      match s
      case WriteInput(cfg, syms, symHash) =>
        if |symHash| == |syms| {
          var st := Start(cfg, |syms|, symHash, u.hash, u.out, u.includes);
          OpensStart(cfg, u.out, u.includes);
          OpensRun(cfg, syms, st, |syms|);
        }
      case Force(m) =>
        if m in u.hash {
          OpensOther(strip, keep, u.hash[m := u.hash[m].(indx := -2, written := false)], u.out, m, u.includes);
        }
      case Other(m) =>
        if m in u.hash {
          OpensOther(strip, keep, u.hash, u.out, m, u.includes);
        }
    }
  }

  lemma OpensStart(cfg: Config, out: seq<Nlist>, includes: Includes)
    requires OpensOk(out, includes)
    ensures OpensOk(out + (if WritesFile(cfg) then [FileSymbol(cfg)] else []), includes)
  {
    hide OpensOk;
    assert out + [] == out;
    OpensPlain(out, FileSymbol(cfg), includes);
  }

  // ---- two settings in which the laws fail -----------------------------

  /** All symbols but those called "h" are stripped. */
  const KEEP_H := Config(StripSome, DiscardNone, {[104]}, {}, true, Section(0, 0, 0, Text), Section(0, 0, 0, Data),
                         Section(0, 0, 0, Bss), [97])

  /** The header "h", without symbols of its own. */
  const HEADER_H := [Nlist(N_BINCL, 0, 0, [104], 0), Nlist(N_EINCL, 0, 0, [], 0)]

  lemma HeaderIsEmpty()
    ensures Balanced(HEADER_H) && HeaderTotal(HEADER_H, 0) == 0 && Plain(HEADER_H, [None, None])
  {
    var s := HEADER_H;
    assert Depth(s[..0]) == Some(0) && s[..1][..0] == s[..0] && s[..2] == s && s[..2][..1] == s[..1];
    assert Depth(s[..1]) == Some(1);
  }

  /** `strip_some` with the bracket's name kept and its end's not: a bracket is written that nothing closes. */
  lemma StripSomeSplits()
    ensures Balanced(HEADER_H) && Plain(HEADER_H, [None, None])
    ensures var r := WriteSymbols(KEEP_H, HEADER_H, [None, None], map[], [], map[]);
      r.out == [HEADER_H[0]] && !Balanced(r.out)
  {
    hide HeaderTotal;
    HeaderIsEmpty();
    var s := HEADER_H;
    var st := Start(KEEP_H, 2, [None, None], map[], [], map[]);
    assert st.out == [];
    BracketTypes(KEEP_H, s[0]);
    BracketTypes(KEEP_H, s[1]);
    assert Kept(KEEP_H, s[0]) && !Kept(KEEP_H, s[1]);
    var r1 := RunTo(KEEP_H, s, st, 1);
    assert RunTo(KEEP_H, s, st, 0) == st;
    BracketStep(KEEP_H, s, st, 0);
    assert r1.out == [s[0]];
    BracketStep(KEEP_H, s, r1, 1);
    assert Depth([s[0]][..0]) == Some(0);
  }

  /** The stab that names the main program.  Masked with N_TYPE its type is N_INDR. */
  const N_MAIN := 0x2a

  /** All symbols but those called "m" are stripped. */
  const KEEP_M := KEEP_H.(keep := {[109]})

  const MAIN_FIRST := [Nlist(N_MAIN, 0, 0, [109], 0), Nlist(N_BINCL, 0, 0, [104], 0), Nlist(N_EINCL, 0, 0, [], 0)]

  /** A header whose bracket stands behind such a stab is passed through as if it were the target of an
      indirection: it is opened a second time, even though its name is to be stripped. */
  lemma MainLeads()
    ensures var out, includes := [HEADER_H[0]], map[[104] := [0]];
      var r := WriteSymbols(KEEP_M, MAIN_FIRST, [None, None, None], map[], out, includes);
      && OpensOk(out, includes) && Balanced(MAIN_FIRST)
      && Opened(r.out, [104]) == [0, 0] && !OpensOk(r.out, r.includes)
  {
    hide Classify, TypeBits, OpensOk;
    var out, includes := [HEADER_H[0]], map[[104] := [0]];
    var s, st := MAIN_FIRST, Start(KEEP_M, 3, [None, None, None], map[], out, includes);
    OneOpened(out, includes);
    MainBalanced();
    MainClassified(KEEP_M, s[0]);
    assert st.out == out && RunTo(KEEP_M, s, st, 0) == st;
    var r1, r2 := RunTo(KEEP_M, s, st, 1), RunTo(KEEP_M, s, st, 2);
    assert r1.out == out + [s[0]] && r1.pass;
    assert r2.out == r1.out + [s[1]] && !r2.pass && !r2.skipNext && r2.symHash == st.symHash;
    BracketStep(KEEP_M, s, r2, 2);
    assert !Kept(KEEP_M, s[2]);
    OpenedNext(r1.out, s[1], [104]);
    OpenedNext(out, s[0], [104]);
    NotTwice(r2.out, includes);
  }

  lemma MainClassified(cfg: Config, s: Nlist)
    requires s.typ == N_MAIN
    ensures Classify(cfg, s, None) == Written(s.typ, s.value, true, false)
  {
    hide SectionValue;
    assert TypeBits(N_MAIN) == N_INDR;
  }

  lemma MainBalanced()
    ensures Balanced(MAIN_FIRST)
  {
    var s := MAIN_FIRST;
    assert s[..0] == [] && s[..1] == s[..0] + [s[0]] && s[..2] == s[..1] + [s[1]] && s == s[..2] + [s[2]];
    DepthNext(s[..0], s[0]);
    DepthNext(s[..1], s[1]);
    DepthNext(s[..2], s[2]);
  }

  lemma OneOpened(out: seq<Nlist>, includes: Includes)
    requires out == [HEADER_H[0]] && includes == map[[104] := [0]]
    ensures OpensOk(out, includes) && Opened(out, [104]) == [0]
  {
    forall n: Name
      ensures Opened(out, n) == Truncated(Totals(includes, n)) && Distinct(Totals(includes, n))
    {
      assert out == [] + [HEADER_H[0]];
      OpenedNext([], HEADER_H[0], n);
    }
  }

  lemma NotTwice(out: seq<Nlist>, includes: Includes)
    requires Opened(out, [104]) == [0, 0] && includes == map[[104] := [0]]
    ensures !OpensOk(out, includes)
  {
    assert |Truncated(Totals(includes, [104]))| == 1;
  }
}
