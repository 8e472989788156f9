// The I/O state a BFD keeps about its stream, over every run of reads, writes and seeks.
module IoState {

  datatype LastIo = SeekIo | ReadIo | WriteIo | ForceIo

  /** The calls that reach the stream. */
  datatype Call = Rd | Wr | Sk

  /** What a BFD believes (`last_io`, `where`), where the stream really is, and the calls made on it. */
  datatype Io = Io(lastIo: LastIo, where: int, pos: int, trace: seq<Call>)

  datatype Whence = FromStart | FromHere

  /** What one request amounts to, with the stream's answers: whether a positioning call worked, and how
      many bytes moved (-1 for an error). */
  datatype Event =
    | Refused
    | Reading(seekOk: bool, count: int)
    | Writing(seekOk: bool, count: int)
    | Seeking(position: int, whence: Whence, ok: bool)

  function Moved(count: int): int { if count == -1 then 0 else count }

  function Target(from: int, position: int, whence: Whence): int {
    if whence == FromStart then position else from + position
  }

  /** The seek requests that are answered without a call. */
  predicate Shortcut(io: Io, position: int, whence: Whence) {
    && ((whence == FromHere && position == 0) || (whence == FromStart && position == io.where))
    && io.lastIo != ForceIo
  }

  /** `bfd_seek`. */
  function AfterSeek(io: Io, position: int, whence: Whence, ok: bool): Io {
    if Shortcut(io, position, whence) then io
    else
      var sought := io.(lastIo := SeekIo, trace := io.trace + [Sk]);
      if ok then sought.(where := Target(io.where, position, whence), pos := Target(io.pos, position, whence))
        else sought
  }

  /** The seek that `bfd_read` and `bfd_write` put between themselves and the other one. */
  function Turned(io: Io, other: LastIo, ok: bool): Io {
    if io.lastIo == other then AfterSeek(io.(lastIo := ForceIo), 0, FromHere, ok) else io
  }

  function After(io: Io, e: Event): Io {
    match e
    case Refused => io
    case Reading(seekOk, count) =>
      var t := Turned(io, WriteIo, seekOk);
      if io.lastIo == WriteIo && !seekOk then t
      else t.(lastIo := ReadIo, where := t.where + Moved(count), pos := t.pos + Moved(count), trace := t.trace + [Rd])
    case Writing(seekOk, count) =>
      var t := Turned(io, ReadIo, seekOk);
      if io.lastIo == ReadIo && !seekOk then t
      else t.(lastIo := WriteIo, where := t.where + Moved(count), pos := t.pos + Moved(count), trace := t.trace + [Wr])
    case Seeking(position, whence, ok) => AfterSeek(io, position, whence, ok)
  }

  function Run(io: Io, events: seq<Event>): Io {
    if events == [] then io else After(Run(io, events[..|events| - 1]), events[|events| - 1])
  }

  // ---- what every run keeps --------------------------------------------

  /** No read directly after a write, and no write directly after a read. */
  predicate Alternates(trace: seq<Call>) {
    forall k :: 0 < k < |trace| ==> {trace[k - 1], trace[k]} != {Rd, Wr}
  }

  predicate Synced(io: Io) {
    && io.where == io.pos && Alternates(io.trace) && io.lastIo != ForceIo
    && (io.trace != [] ==>
          match io.trace[|io.trace| - 1]
          case Rd => io.lastIo == ReadIo
          case Wr => io.lastIo == WriteIo
          case Sk => io.lastIo == SeekIo)
  }

  lemma AlternatesMore(trace: seq<Call>, c: Call)
    requires Alternates(trace) && (trace != [] ==> {trace[|trace| - 1], c} != {Rd, Wr})
    ensures Alternates(trace + [c])
  {
    forall k | 0 < k < |trace + [c]|
      ensures {(trace + [c])[k - 1], (trace + [c])[k]} != {Rd, Wr}
    {
      assert k < |trace| ==> {trace[k - 1], trace[k]} != {Rd, Wr};
    }
  }

  lemma SeekKeeps(io: Io, position: int, whence: Whence, ok: bool)
    requires io.where == io.pos && Alternates(io.trace) && (Synced(io) || io.lastIo == ForceIo)
    ensures Synced(AfterSeek(io, position, whence, ok))
  {
    assert {Rd, Sk} != {Rd, Wr} && {Wr, Sk} != {Rd, Wr} && {Sk, Sk} != {Rd, Wr} by {
      assert Sk in {Rd, Sk} && Sk in {Wr, Sk} && Sk in {Sk, Sk} && Sk !in {Rd, Wr};
    }
    AlternatesMore(io.trace, Sk);
  }

  lemma EventKeeps(io: Io, e: Event)
    requires Synced(io)
    ensures Synced(After(io, e))
  {
    hide Alternates, AfterSeek;
    assert {Rd, Rd} != {Rd, Wr} && {Wr, Wr} != {Rd, Wr} && {Sk, Rd} != {Rd, Wr} && {Sk, Wr} != {Rd, Wr} by {
      assert Wr !in {Rd, Rd} && Rd !in {Wr, Wr} && Wr !in {Sk, Rd} && Rd !in {Sk, Wr};
    }
    match e
    case Refused =>
    case Seeking(position, whence, ok) => SeekKeeps(io, position, whence, ok);
    case Reading(seekOk, count) =>
      SeekKeeps(io.(lastIo := ForceIo), 0, FromHere, seekOk);
      TurnedSeeks(io, WriteIo, seekOk);
      AlternatesMore(Turned(io, WriteIo, seekOk).trace, Rd);
    case Writing(seekOk, count) =>
      SeekKeeps(io.(lastIo := ForceIo), 0, FromHere, seekOk);
      TurnedSeeks(io, ReadIo, seekOk);
      AlternatesMore(Turned(io, ReadIo, seekOk).trace, Wr);
  }

  lemma TurnedSeeks(io: Io, other: LastIo, ok: bool)
    ensures Turned(io, other, ok).trace == if io.lastIo == other then io.trace + [Sk] else io.trace
  {
  }

  /** In every run from a fresh BFD the stream is never read right after a write, or written right after a
      read; and what the BFD takes to be the position is the stream's. */
  lemma {:induction false} EveryRun(io: Io, events: seq<Event>)
    requires Synced(io)
    ensures Synced(Run(io, events))
    decreases |events|
  {
    hide Synced, After;
    if events != [] {
      EveryRun(io, events[..|events| - 1]);
      EventKeeps(Run(io, events[..|events| - 1]), events[|events| - 1]);
    }
  }

  /** The short-cut is sound: whether or not the stream is called, a seek that is not refused by the stream
      leaves it at the position asked for. */
  lemma SeekArrives(io: Io, position: int, whence: Whence, ok: bool)
    requires Synced(io) && (ok || Shortcut(io, position, whence))
    ensures AfterSeek(io, position, whence, ok).pos == Target(io.pos, position, whence)
  {
  }

  /** A seek the stream refuses moves nothing, in the stream or in the BFD; one that it accepts, or that is answered
      without it, arrives. */
  lemma SeekMoves(io: Io, position: int, whence: Whence, ok: bool)
    requires Synced(io)
    ensures var r := AfterSeek(io, position, whence, ok);
      r.where == r.pos == if ok || io.pos == Target(io.pos, position, whence) then
        (if whence == FromStart then position else io.pos + position) else io.pos
  {
  }

  /** A read or a write moves by the bytes that went over, unless it had to be preceded by a positioning call and
      that failed: then it is not made, and the BFD and the stream stay where they were. */
  lemma TransferMoves(io: Io, count: int, ok: bool)
    requires Synced(io)
    ensures var (r, moved) := (After(io, Reading(ok, count)), if count == -1 then 0 else count);
      if io.lastIo == WriteIo && !ok then r.pos == r.where == io.pos && r.trace == io.trace + [Sk]
      else r.pos == r.where == io.pos + moved
           && r.trace == io.trace + if io.lastIo == WriteIo then [Sk, Rd] else [Rd]
    ensures var (r, moved) := (After(io, Writing(ok, count)), if count == -1 then 0 else count);
      if io.lastIo == ReadIo && !ok then r.pos == r.where == io.pos && r.trace == io.trace + [Sk]
      else r.pos == r.where == io.pos + moved
           && r.trace == io.trace + if io.lastIo == ReadIo then [Sk, Wr] else [Wr]
  {
    hide Synced, AfterSeek;
    TurnedMoves(io, WriteIo, ok);
    TurnedMoves(io, ReadIo, ok);
  }

  lemma TurnedMoves(io: Io, other: LastIo, ok: bool)
    requires Synced(io)
    ensures var t := Turned(io, other, ok);
      t.pos == t.where == io.pos && t.trace == if io.lastIo == other then io.trace + [Sk] else io.trace
  {
  }
}
