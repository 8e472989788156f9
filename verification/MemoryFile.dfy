// A BFD whose file is a buffer in memory.
module MemoryFile {
  import opened Bytes
  import opened IoState

  datatype Direction = NoDirection | ReadDirection | WriteDirection | BothDirection

  /** `(n + 127) & ~127`. */
  function RoundUp(n: nat): (r: nat)
    ensures n <= r < n + 128 && r % 128 == 0
  {
    (n + 127) / 128 * 128
  }

  /** What the file is: its bytes, and a position that is never past its end. */
  datatype File = File(bytes: seq<byte>, pos: nat)

  function ReadAt(f: File, n: nat): seq<byte>
    requires f.pos <= |f.bytes|
  {
    if f.pos + n <= |f.bytes| then f.bytes[f.pos..f.pos + n] else f.bytes[f.pos..]
  }

  /** `data` over the bytes from the position on, growing the file if it must. */
  function Written(f: File, data: seq<byte>): (r: File)
    requires f.pos <= |f.bytes|
    ensures r.pos <= |r.bytes|
  {
    File(f.bytes[..f.pos] + data + (if f.pos + |data| <= |f.bytes| then f.bytes[f.pos + |data|..] else []),
      f.pos + |data|)
  }

  predicate CanGrow(d: Direction) { d == WriteDirection || d == BothDirection }

  /** A seek, and whether it worked: one before the start fails and leaves the position at 0; one past the
      end extends a file that can be written, with zeros, and otherwise fails and leaves the position at
      the end. */
  function Sought(f: File, d: Direction, to: int): (r: (File, bool))
    ensures f.pos <= |f.bytes| ==> r.0.pos <= |r.0.bytes|
  {
    if to < 0 then (f.(pos := 0), false)
    else if to <= |f.bytes| then (f.(pos := to), true)
    else if CanGrow(d) then (File(f.bytes + Zeros(to - |f.bytes|), to), true)
    else (f.(pos := |f.bytes|), false)
  }

  /** What has been written is read back after seeking to where it was written, and the bytes around it are
      as they were. */
  lemma WriteReadsBack(f: File, d: Direction, data: seq<byte>)
    requires f.pos <= |f.bytes|
    ensures var w := Written(f, data); var (g, ok) := Sought(w, d, f.pos);
      && ok && ReadAt(g, |data|) == data
      && g.bytes[..f.pos] == f.bytes[..f.pos] && |g.bytes| >= |f.bytes|
      && g.bytes[f.pos + |data|..] == if f.pos + |data| <= |f.bytes| then f.bytes[f.pos + |data|..] else []
  {
    var w := Written(f, data);
    var tail := if f.pos + |data| <= |f.bytes| then f.bytes[f.pos + |data|..] else [];
    assert w.bytes == f.bytes[..f.pos] + data + tail;
    assert w.bytes[f.pos..f.pos + |data|] == data && w.bytes[f.pos + |data|..] == tail;
  }

  /** Writing after a seek past the end leaves zeros in between. */
  lemma GapIsZero(f: File, d: Direction, to: nat, data: seq<byte>)
    requires CanGrow(d) && |f.bytes| <= to
    ensures var (g, ok) := Sought(f, d, to);
      ok && Written(g, data) == File(f.bytes + Zeros(to - |f.bytes|) + data, to + |data|)
  {
    var g := f.bytes + Zeros(to - |f.bytes|);
    assert g[..to] == g && (to == |f.bytes| ==> g == f.bytes);
  }

  /** A seek works exactly when it ends within the file, or past its end in a file opened for writing.  No seek
      loses a byte; the file grows only if a seek past its end works, and then up to there; and one that fails
      leaves the position at the end of the file it missed. */
  lemma SeekIff(f: File, d: Direction, to: int)
    ensures var (g, ok) := Sought(f, d, to);
      && (ok <==> 0 <= to && (to <= |f.bytes| || d == WriteDirection || d == BothDirection))
      && f.bytes <= g.bytes && (ok ==> g.pos == to)
      && |g.bytes| == (if ok && to > |f.bytes| then to else |f.bytes|)
      && (!ok ==> g.pos == if to < 0 then 0 else |f.bytes|)
  {
  }

  /** A read gives the bytes from the position on, as many as were asked for or are left. */
  lemma ReadIs(f: File, n: nat)
    requires f.pos <= |f.bytes|
    ensures var r := ReadAt(f, n);
      && |r| <= n && f.pos + |r| <= |f.bytes| && (|r| == n || f.pos + |r| == |f.bytes|)
      && forall k :: 0 <= k < |r| ==> r[k] == f.bytes[f.pos + k]
  {
  }

  /** A buffer of fresh memory, whose contents may be anything. */
  method Allocate(n: nat) returns (buffer: array<byte>)
    ensures fresh(buffer) && buffer.Length == n
  {
    var garbage: byte :| true;
    buffer := new byte[n](_ => garbage);
  }

  /** `bfd_realloc`: the old bytes, and after them whatever was there. */
  method Realloc(buffer: array<byte>, n: nat) returns (bigger: array<byte>)
    requires buffer.Length <= n
    ensures fresh(bigger) && bigger.Length == n && bigger[..buffer.Length] == buffer[..]
  {
    bigger := Allocate(n);
    var k := 0;
    while k < buffer.Length
      invariant k <= buffer.Length && bigger[..k] == buffer[..k]
    {
      bigger[k] := buffer[k];
      k := k + 1;
    }
  }

  method Clear(buffer: array<byte>, lo: nat, hi: nat)
    requires lo <= hi <= buffer.Length
    modifies buffer
    ensures forall k :: 0 <= k < buffer.Length ==> buffer[k] == if lo <= k < hi then 0 else old(buffer[k])
  {
    forall k | lo <= k < hi {
      buffer[k] := 0;
    }
  }

  method CopyIn(buffer: array<byte>, at: nat, data: seq<byte>)
    requires at + |data| <= buffer.Length
    modifies buffer
    ensures buffer[..] == old(buffer[..at]) + data + old(buffer[at + |data|..])
  {
    forall k | 0 <= k < |data| {
      buffer[at + k] := data[k];
    }
  }

  lemma ClippedSlice(buffer: seq<byte>, size: nat, where: nat, n: nat)
    requires where <= size <= |buffer|
    ensures ReadAt(File(buffer[..size], where), n) == buffer[where..if where + n > size then size else where + n]
  {
  }

  lemma WrittenOver(f: File, before: seq<byte>, data: seq<byte>, size: nat)
    requires f.pos <= |f.bytes| <= |before| && before[..|f.bytes|] == f.bytes
    requires size == (if f.pos + |data| > |f.bytes| then f.pos + |data| else |f.bytes|) <= |before|
    ensures var after := before[..f.pos] + data + before[f.pos + |data|..];
      after[..size] == Written(f, data).bytes && after[size..] == before[size..]
  {
    assert before[..f.pos] == before[..|f.bytes|][..f.pos] == f.bytes[..f.pos];
    assert f.pos + |data| <= |f.bytes| ==> before[f.pos + |data|..size] == f.bytes[f.pos + |data|..];
  }

  class InMemory {
    const direction: Direction
    var size: nat
    var buffer: array<byte>
    var where: nat

    constructor (direction: Direction)
      ensures Valid() && this.direction == direction && Contents() == File([], 0) && fresh(buffer)
    {
      this.direction, size, where := direction, 0, 0;
      buffer := new byte[0];
    }

    /** The buffer is as long as the size rounded up, and zero past the size. */
    ghost predicate Valid()
      reads this, buffer
    {
      && buffer.Length == RoundUp(size) && where <= size
      && buffer[size..] == Zeros(buffer.Length - size)
    }

    ghost function Contents(): (f: File)
      requires Valid()
      reads this, buffer
      ensures f.pos <= |f.bytes|
    {
      File(buffer[..size], where)
    }

    /** `memory_bread`. */
    method Bread(ptr: array<byte>, n: nat) returns (got: int)
      requires Valid() && n <= ptr.Length && ptr != buffer
      modifies ptr
      ensures Valid() && Contents() == old(Contents())
      ensures got == |ReadAt(Contents(), n)| && ptr[..] == ReadAt(Contents(), n) + old(ptr[got..])
    {
      hide RoundUp, Zeros, ReadAt;
      got := n;
      if where + got > size {
        got := if size < where then 0 else size - where;
      }
      ClippedSlice(buffer[..], size, where, n);
      CopyIn(ptr, 0, buffer[where..where + got]);
    }

    /** A new size, with the buffer enlarged if it has to be, and what is past `from` in it cleared. */
    method Grow(n: nat, from: nat)
      requires Valid() && size < n && (from == n || from == RoundUp(size))
      modifies this, buffer
      ensures buffer == old(buffer) || fresh(buffer)
      ensures size == n && where == old(where) && buffer.Length == RoundUp(n)
      ensures forall k :: 0 <= k < old(size) ==> buffer[k] == old(buffer[k])
      ensures forall k :: old(size) <= k < buffer.Length && (k < RoundUp(old(size)) || from <= k) ==> buffer[k] == 0
    {
      ghost var was := buffer[..];
      assert forall k :: size <= k < buffer.Length ==> buffer[k] == buffer[size..][k - size] == 0;
      var oldsize := RoundUp(size);
      size := n;
      var newsize := RoundUp(size);
      if newsize > oldsize {
        buffer := Realloc(buffer, newsize);
        assert forall k :: 0 <= k < oldsize ==> buffer[k] == buffer[..oldsize][k] == was[k];
        Clear(buffer, from, newsize);
      }
    }

    /** Room for `n` bytes. */
    method Reserve(n: nat)
      requires Valid()
      modifies this, buffer
      ensures buffer == old(buffer) || fresh(buffer)
      ensures size == (if n > old(size) then n else old(size)) && where == old(where) && buffer.Length == RoundUp(size)
      ensures buffer[..old(size)] == old(buffer[..size]) && buffer[size..] == Zeros(buffer.Length - size)
    {
      hide RoundUp;
      if n > size {
        Grow(n, n);
      }
    }

    /** `memory_bwrite`.  It leaves `where` alone. */
    method Bwrite(data: seq<byte>) returns (put: nat)
      requires Valid()
      modifies this, buffer
      ensures Valid() && (buffer == old(buffer) || fresh(buffer)) && put == |data|
      ensures where == old(where) && buffer[..size] == Written(old(Contents()), data).bytes
    {
      hide RoundUp, Zeros, Written;
      ghost var f := Contents();
      Reserve(where + |data|);
      ghost var before := buffer[..];
      assert before[..|f.bytes|] == f.bytes;
      CopyIn(buffer, where, data);
      WrittenOver(f, before, data, size);
      return |data|;
    }

    /** `memory_bseek`, which moves `where` only when it fails. */
    method Bseek(position: int, whence: Whence) returns (ok: bool)
      requires Valid()
      modifies this, buffer
      ensures Valid() && (buffer == old(buffer) || fresh(buffer))
      ensures var r := Sought(old(Contents()), direction, Target(old(where), position, whence));
        ok == r.1 && Contents() == if ok then File(r.0.bytes, old(where)) else r.0
    {
      hide RoundUp;
      ghost var f := Contents();
      var nwhere := if whence == FromStart then position else where + position;
      if nwhere < 0 {
        where := 0;
        return false;
      }
      if nwhere > size {
        if direction == WriteDirection || direction == BothDirection {
          Grow(nwhere, RoundUp(size));
          assert buffer[..size] == f.bytes + Zeros(size - |f.bytes|);
          assert buffer[size..] == Zeros(buffer.Length - size);
        } else {
          where := size;
          return false;
        }
      }
      return true;
    }

    /** `bfd_read`, `bfd_write` and `bfd_seek` with these operations, as far as the position goes. */
    method Read(ptr: array<byte>, n: nat) returns (nread: nat)
      requires Valid() && n <= ptr.Length && ptr != buffer
      modifies this`where, ptr
      ensures Valid() && nread == |ReadAt(old(Contents()), n)|
      ensures Contents() == old(Contents()).(pos := old(Contents()).pos + nread)
      ensures ptr[..] == ReadAt(old(Contents()), n) + old(ptr[..])[nread..]
    {
      nread := Bread(ptr, n);
      where := where + nread;
    }

    method Write(data: seq<byte>) returns (nwrote: nat)
      requires Valid()
      modifies this, buffer
      ensures Valid() && (buffer == old(buffer) || fresh(buffer))
      ensures nwrote == |data| && Contents() == Written(old(Contents()), data)
    {
      nwrote := Bwrite(data);
      where := where + nwrote;
    }

    method Seek(position: int, whence: Whence, force: bool) returns (ok: bool)
      requires Valid()
      modifies this, buffer
      ensures Valid() && (buffer == old(buffer) || fresh(buffer))
      ensures (Contents(), ok) == Sought(old(Contents()), direction, Target(old(where), position, whence))
    {
      if ((whence == FromHere && position == 0) || (whence == FromStart && position == where)) && !force {
        return true;
      }
      ok := Bseek(position, whence);
      if ok {
        where := if whence == FromHere then where + position else position;
      }
    }
  }
}
