// bfd_read, bfd_write, bfd_seek and bfd_tell, on a file and on the members of archives in it.
module BfdIo {
  import opened Bytes
  import opened IoState

  const ERROR := -1

  /** A stream of the system, which may fail or do less than it was asked. */
  class Stream {
    var file: seq<byte>
    var pos: nat
    ghost var trace: seq<Call>

    constructor (file: seq<byte>)
      ensures this.file == file && pos == 0 && trace == []
    {
      this.file, pos, trace := file, 0, [];
    }

    function Available(n: nat): nat
      reads this
    {
      if pos >= |file| then 0 else if pos + n <= |file| then n else |file| - pos
    }

    method Bread(ptr: array<byte>, n: nat) returns (count: int)
      requires n <= ptr.Length
      modifies this, ptr
      ensures ERROR <= count <= old(Available(n)) && file == old(file) && trace == old(trace) + [Rd]
      ensures pos == old(pos) + Moved(count)
      ensures count > 0 ==> ptr[..count] == file[old(pos)..old(pos) + count]
      ensures forall k :: Moved(count) <= k < ptr.Length ==> ptr[k] == old(ptr[k])
    {
      trace := trace + [Rd];
      var most := Available(n);
      assert most <= n;
      count :| ERROR <= count <= most;
      assert count <= most;
      if count > 0 {
        forall k | 0 <= k < count {
          ptr[k] := file[pos + k];
        }
        pos := pos + count;
      }
    }

    method Bwrite(data: seq<byte>) returns (count: int)
      modifies this
      ensures ERROR <= count <= |data| && trace == old(trace) + [Wr] && pos == old(pos) + Moved(count)
      ensures file == if count > 0 then Overwritten(old(file), old(pos), data[..count]) else old(file)
    {
      trace := trace + [Wr];
      count :| ERROR <= count <= |data|;
      if count > 0 {
        file := Overwritten(file, pos, data[..count]);
        pos := pos + count;
      }
    }

    method Bseek(position: int, whence: Whence) returns (ok: bool)
      modifies this
      ensures file == old(file) && trace == old(trace) + [Sk]
      ensures pos == if ok then Target(old(pos), position, whence) else old(pos)
    {
      trace := trace + [Sk];
      ok :| ok ==> Target(pos, position, whence) >= 0;
      if ok {
        pos := Target(pos, position, whence);
      }
    }
  }

  /** A file after `data` has been written at `p`, which may be past its end. */
  function Overwritten(file: seq<byte>, p: nat, data: seq<byte>): (r: seq<byte>)
    ensures p + |data| <= |r| && r[p..p + |data|] == data
  {
    var padded := if p <= |file| then file else file + seq(p - |file|, _ => 0 as byte);
    padded[..p] + data + (if p + |data| <= |padded| then padded[p + |data|..] else [])
  }

  /** A write changes its own bytes and no other; what it leaves out behind the end of the file is zero. */
  lemma OverwrittenIs(file: seq<byte>, p: nat, data: seq<byte>)
    ensures var r := Overwritten(file, p, data);
      && |r| == (if p + |data| > |file| then p + |data| else |file|)
      && forall k :: 0 <= k < |r| ==>
           r[k] == if p <= k < p + |data| then data[k - p] else if k < |file| then file[k] else 0
  {
  }

  class Bfd {
    const myArchive: Bfd?
    const origin: nat
    const isThin: bool
    const areltSize: Option<nat>
    const stream: Stream?
    ghost const depth: nat
    var where: nat
    var lastIo: LastIo

    constructor (myArchive: Bfd?, origin: nat, isThin: bool, areltSize: Option<nat>, stream: Stream?)
      requires myArchive != null ==> myArchive.Chained()
      ensures Chained() && this.myArchive == myArchive && this.origin == origin && this.isThin == isThin
      ensures this.areltSize == areltSize && this.stream == stream && where == 0 && lastIo == SeekIo
    {
      this.myArchive, this.origin, this.isThin, this.areltSize, this.stream := myArchive, origin, isThin, areltSize,
        stream;
      where, lastIo := 0, SeekIo;
      depth := if myArchive == null then 0 else myArchive.depth + 1;
    }

    /** Archives contain older archives. */
    ghost predicate Chained()
      decreases depth
    {
      myArchive == null || (myArchive.depth < depth && myArchive.Chained())
    }

    /** Whether the bytes are those of the archive it is in. */
    predicate Inside() { myArchive != null && !myArchive.isThin }

    /** The file the bytes are in, and where in it they start. */
    ghost function Top(): (t: Bfd)
      requires Chained()
      ensures t.Chained() && !t.Inside()
      decreases depth
    {
      if Inside() then myArchive.Top() else this
    }

    ghost function Offset(): nat
      requires Chained()
      decreases depth
    {
      origin + if Inside() then myArchive.Offset() else 0
    }

    /** The loop to the outermost archive. */
    method Outermost() returns (top: Bfd, offset: nat)
      requires Chained()
      ensures top == Top() && offset == Offset()
      ensures top.where == old(top.where) && top.lastIo == old(top.lastIo)
      ensures top.stream != null ==> top.State() == old(top.State()) && top.stream.file == old(top.stream.file)
    {
      top, offset := this, 0;
      while top.myArchive != null && !top.myArchive.isThin
        invariant top.Chained() && top.Top() == Top() && offset + top.Offset() == Offset()
        decreases top.depth
      {
        offset := offset + top.origin;
        top := top.myArchive;
      }
      offset := offset + top.origin;
    }

    /** What the BFD and its stream have gone through. */
    ghost function State(): Io
      requires stream != null
      reads this, stream
    {
      Io(lastIo, where, stream.pos, stream.trace)
    }

    /** How many of `size` bytes may be read, for a member; None if there is nothing to read. */
    ghost function Clip(size: nat): (r: Option<nat>)
      requires Chained()
      reads Top()
      ensures areltSize.None? || !Inside() ==> r == Some(size)
      ensures areltSize.Some? && Inside() ==>
        var p := Top().where as int - Offset();
        && (r.Some? <==> 0 <= p < areltSize.value)
        && (r.Some? ==> r.value <= size && p + r.value <= areltSize.value)
        && (r.Some? ==> r.value == size || p + r.value == areltSize.value)
    {
      if areltSize.None? || !Inside() then Some(size)
      else
        var p := Top().where as int - Offset();
        if p < 0 || p >= areltSize.value then None
        else Some(if p + size > areltSize.value then areltSize.value - p else size)
    }

    /** The seek at the top of the chain. */
    method SeekHere(position: int, whence: Whence) returns (ok: bool, ghost called: bool)
      requires stream != null && where == stream.pos
      modifies this, stream
      ensures stream.file == old(stream.file)
      ensures State() == AfterSeek(old(State()), position, whence, called)
      ensures ok == (called || Shortcut(old(State()), position, whence))
    {
      called := false;
      if ((whence == FromHere && position == 0) || (whence == FromStart && position == where)) && lastIo != ForceIo {
        return true, false;
      }
      lastIo := SeekIo;
      var result := stream.Bseek(position, whence);
      if result {
        where := if whence == FromHere then where + position else position;
      }
      return result, result;
    }

    /** `bfd_seek`. */
    method Seek(position: int, whence: Whence) returns (ok: bool, ghost e: Event)
      requires Chained() && (Top().stream != null ==> Synced(Top().State()))
      modifies Top(), Top().stream
      ensures Top().stream == null ==> !ok && e == Refused
      ensures Top().stream != null ==> Top().State() == After(old(Top().State()), e) && Synced(Top().State())
      ensures Top().stream != null ==> Top().stream.file == old(Top().stream.file)
      ensures ok ==> Top().where as int - Offset() == Target(old(Top().where) as int - Offset(), position, whence)
    {
      hide Alternates;
      var top, offset := Outermost();
      if top.stream == null {
        return false, Refused;
      }
      var p := if whence != FromHere then position + offset else position;
      ghost var io, called := top.State(), false;
      ok, called := top.SeekHere(p, whence);
      e := Seeking(p, whence, called);
      EventKeeps(io, e);
    }

    /** The read at the top of the chain, after the length has been clipped. */
    method ReadHere(ptr: array<byte>, n: nat) returns (nread: int, ghost e: Event)
      requires stream != null && Synced(State()) && n <= ptr.Length
      modifies this, stream, ptr
      ensures State() == After(old(State()), e) && Synced(State()) && stream.file == old(stream.file)
      ensures ERROR <= nread <= n
      ensures nread != ERROR ==> where == old(where) + nread
      ensures nread > 0 ==> where <= |stream.file| && ptr[..nread] == stream.file[old(where)..where]
    {
      hide Alternates;
      ghost var io := State();
      if lastIo == WriteIo {
        lastIo := ForceIo;
        var ok, called := SeekHere(0, FromHere);
        if !ok {
          e := Reading(false, 0);
          EventKeeps(io, e);
          return ERROR, e;
        }
      }
      lastIo := ReadIo;
      nread := stream.Bread(ptr, n);
      if nread != ERROR {
        where := where + nread;
      }
      e := Reading(true, nread);
      EventKeeps(io, e);
    }

    /** `bfd_read`. */
    method Read(ptr: array<byte>, size: nat) returns (nread: int, ghost e: Event)
      requires Chained() && (Top().stream != null ==> Synced(Top().State())) && size <= ptr.Length
      modifies Top(), Top().stream, ptr
      ensures Top().stream == null || old(Clip(size)).None? ==>
        nread == ERROR && e == Refused && Top().where == old(Top().where) && Top().lastIo == old(Top().lastIo)
          && ptr[..] == old(ptr[..])
      ensures Top().stream != null ==>
        && Top().State() == After(old(Top().State()), e) && Synced(Top().State())
        && Top().stream.file == old(Top().stream.file)
      ensures nread != ERROR ==>
        && Top().stream != null && old(Clip(size)).Some? && 0 <= nread <= old(Clip(size)).value
        && Top().where == old(Top().where) + nread
        && (nread > 0 ==>
              && Top().where <= |Top().stream.file|
              && ptr[..nread] == Top().stream.file[old(Top().where)..Top().where])
      ensures nread > 0 && areltSize.Some? && Inside() ==>
        var m, p := Member(Top().stream.file, Offset(), areltSize.value), old(Top().where) as int - Offset();
        0 <= p && p + nread <= |m| && ptr[..nread] == m[p..p + nread]
    {
      hide Synced, After, Member;
      ghost var clip := Clip(size);
      var top, offset := Outermost();
      var n := size;
      if areltSize.Some? && myArchive != null && !myArchive.isThin {
        var maxbytes := areltSize.value;
        if top.where < offset || top.where - offset >= maxbytes {
          assert clip.None?;
          e := Refused;
          EventRefused(top);
          return ERROR, e;
        }
        if top.where - offset + size > maxbytes {
          n := maxbytes - (top.where - offset);
        }
      }
      assert clip == Some(n);
      if top.stream == null {
        return ERROR, Refused;
      }
      nread, e := top.ReadHere(ptr, n);
      if nread > 0 && areltSize.Some? && Inside() {
        ClippedIsMember(top.stream.file, offset, areltSize.value, old(top.where), nread);
      }
    }

    lemma EventRefused(top: Bfd)
      ensures top.stream != null ==> After(top.State(), Refused) == top.State()
    {
    }

    /** `bfd_write`. */
    method Write(data: seq<byte>) returns (nwrote: int, ghost e: Event)
      requires Chained() && (Top().stream != null ==> Synced(Top().State()))
      modifies Top(), Top().stream
      ensures Top().stream == null ==> nwrote == ERROR && e == Refused
      ensures Top().stream != null ==> Top().State() == After(old(Top().State()), e) && Synced(Top().State())
      ensures nwrote != ERROR ==>
        && Top().stream != null && 0 <= nwrote <= |data| && old(Top().where) + nwrote == Top().where
        && Top().stream.file == if nwrote > 0 then Overwritten(old(Top().stream.file), old(Top().where), data[..nwrote])
                                else old(Top().stream.file)
    {
      hide Alternates, Overwritten;
      var top, offset := Outermost();
      if top.stream == null {
        return ERROR, Refused;
      }
      ghost var io := top.State();
      var ok := true;
      ghost var called := true;
      if top.lastIo == ReadIo {
        top.lastIo := ForceIo;
        ok, called := top.SeekHere(0, FromHere);
        if !ok {
          e := Writing(false, 0);
          EventKeeps(io, e);
          return ERROR, e;
        }
      }
      top.lastIo := WriteIo;
      nwrote := top.stream.Bwrite(data);
      if nwrote != ERROR {
        top.where := top.where + nwrote;
      }
      e := Writing(true, nwrote);
      EventKeeps(io, e);
    }

    /** `bfd_tell`. */
    method Tell() returns (p: int)
      requires Chained() && (Top().stream != null ==> Synced(Top().State()))
      modifies Top()
      ensures Top().stream != null ==> Top().State() == old(Top().State()) && p == Top().where as int - Offset()
      ensures Top().stream == null ==> p == 0 && Top().where == old(Top().where) && Top().lastIo == old(Top().lastIo)
    {
      var top, offset := Outermost();
      if top.stream == null {
        return 0;
      }
      top.where := top.stream.pos;
      p := top.where - offset;
    }
  }

  /** The bytes of a member of size `size` at `offset` in a file. */
  function Member(file: seq<byte>, offset: nat, size: nat): seq<byte> {
    if offset >= |file| then [] else if offset + size <= |file| then file[offset..offset + size] else file[offset..]
  }

  /** A read clipped this way never leaves the member: it gives the member's own bytes from the member's own
      position. */
  lemma ClippedIsMember(file: seq<byte>, offset: nat, size: nat, where: nat, count: nat)
    requires offset <= where && where - offset + count <= size && where + count <= |file|
    ensures where - offset + count <= |Member(file, offset, size)|
    ensures file[where..where + count] == Member(file, offset, size)[where - offset..where - offset + count]
  {
  }
}
