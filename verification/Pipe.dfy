/** The pipe's ring buffer, with the whole history of what went in and came out. */
module Pipe {
  import opened Bytes

  const PIPE_BUF: nat := 4096

  datatype ReadResult = Data(bytes: seq<Byte>) | Eof | ReadAgain | ReadFault
  datatype WriteResult = Wrote(n: nat) | Broken | WriteAgain | WriteFault

  /** One successful `pipe_write_at`: what the writer asked for, and how much of it was taken. */
  datatype Chunk = Chunk(writer: nat, asked: seq<Byte>, took: nat)

  /** A short write is taken whole, a long one at least in part. */
  predicate ChunkOk(c: Chunk) {
    0 < c.took <= |c.asked| && (|c.asked| <= PIPE_BUF ==> c.took == |c.asked|)
  }

  /** Everything the chunks put into the stream, in order. */
  ghost function Stream(log: seq<Chunk>): seq<Byte>
    requires forall i :: 0 <= i < |log| ==> ChunkOk(log[i])
  {
    if log == [] then []
    else
      var k := |log| - 1;
      assert ChunkOk(log[k]);
      Stream(log[..k]) + log[k].asked[..log[k].took]
  }

  /** `b` stands at place `at` of the stream. */
  predicate PieceAt(s: seq<Byte>, at: nat, b: seq<Byte>) {
    at + |b| <= |s| && s[at..at + |b|] == b
  }

  /** Each chunk is one contiguous piece of the stream. */
  lemma {:induction false} Contiguous(log: seq<Chunk>, i: nat)
    requires (forall k :: 0 <= k < |log| ==> ChunkOk(log[k])) && i < |log|
    ensures PieceAt(Stream(log), |Stream(log[..i])|, log[i].asked[..log[i].took])
  {
    var k := |log| - 1;
    var c := log[i];
    if i < k {
      Contiguous(log[..k], i);
      assert log[..k][..i] == log[..i];
      var at, head := |Stream(log[..i])|, Stream(log[..k]);
      assert Stream(log)[at..at + c.took] == head[at..at + c.took];
    }
  }

  /** What one writer's chunks put into the stream. */
  ghost function Mine(log: seq<Chunk>, me: nat): seq<Byte>
    requires forall i :: 0 <= i < |log| ==> ChunkOk(log[i])
  {
    if log == [] then []
    else
      var k := |log| - 1;
      assert ChunkOk(log[k]);
      Mine(log[..k], me) + if log[k].writer == me then log[k].asked[..log[k].took] else []
  }

  lemma MineMore(log: seq<Chunk>, c: Chunk, me: nat)
    requires (forall i :: 0 <= i < |log| ==> ChunkOk(log[i])) && ChunkOk(c)
    ensures Mine(log + [c], me) == Mine(log, me) + if c.writer == me then c.asked[..c.took] else []
  {
    assert (log + [c])[..|log|] == log;
  }

  /** One more accepted part of `buf` by the same writer. */
  lemma MineGrows(log: seq<Chunk>, me: nat, buf: seq<Byte>, total: nat, n: nat, before: seq<Byte>)
    requires (forall i :: 0 <= i < |log| ==> ChunkOk(log[i])) && total <= |buf| && ChunkOk(Chunk(me, buf[total..], n))
    requires Mine(log, me) == before + buf[..total]
    ensures Mine(log + [Chunk(me, buf[total..], n)], me) == before + buf[..total + n]
  {
    MineMore(log, Chunk(me, buf[total..], n), me);
    TakeMore(buf, total, n);
    Assoc(before, buf[..total], buf[total..][..n]);
  }

  lemma TakeMore(b: seq<Byte>, m: nat, n: nat)
    requires m + n <= |b|
    ensures b[..m] + b[m..][..n] == b[..m + n]
  {
  }

  lemma Assoc(a: seq<Byte>, b: seq<Byte>, c: seq<Byte>)
    ensures (a + b) + c == a + (b + c)
  {
  }

  /** `b` is one contiguous piece of the stream, and lies behind its first `from` bytes. */
  ghost predicate InOnePiece(s: seq<Byte>, from: nat, b: seq<Byte>) {
    exists at: nat :: from <= at && PieceAt(s, at, b)
  }

  lemma {:induction false} StreamMono(log: seq<Chunk>, i: nat)
    requires (forall k :: 0 <= k < |log| ==> ChunkOk(log[k])) && i <= |log|
    ensures |Stream(log[..i])| <= |Stream(log)|
  {
    if i < |log| {
      StreamMono(log[..|log| - 1], i);
      assert log[..|log| - 1][..i] == log[..i];
    } else {
      assert log[..i] == log;
    }
  }

  lemma StreamBehind(log: seq<Chunk>, log0: seq<Chunk>, i: nat)
    requires (forall k :: 0 <= k < |log| ==> ChunkOk(log[k])) && log0 <= log && |log0| <= i < |log|
    ensures |Stream(log0)| <= |Stream(log[..i])|
  {
    assert log[..i][..|log0|] == log0;
    StreamMono(log[..i], |log0|);
  }

  /** A chunk taken whole after `log0` is in the stream in one piece. */
  lemma WholeChunk(log: seq<Chunk>, log0: seq<Chunk>, i: nat, me: nat, buf: seq<Byte>)
    requires (forall k :: 0 <= k < |log| ==> ChunkOk(log[k])) && log0 <= log && |log0| <= i < |log| && log[i] == Chunk(me, buf, |buf|)
    ensures InOnePiece(Stream(log), |Stream(log0)|, buf)
  {
    StreamBehind(log, log0, i);
    Contiguous(log, i);
    WholePiece(Stream(log), |Stream(log[..i])|, log[i]);
  }

  lemma WholePiece(s: seq<Byte>, at: nat, c: Chunk)
    requires c.took == |c.asked| && PieceAt(s, at, c.asked[..c.took])
    ensures PieceAt(s, at, c.asked)
  {
    assert c.asked[..c.took] == c.asked;
  }

  /** What other holders of the pipe's ends do between two attempts of a writer. */
  datatype Op = Write(writer: nat, buf: seq<Byte>) | Read(len: nat) | CloseRead

  /** The place of byte `k` counted from `head` in a ring of `cap` bytes. */
  function Slot(head: nat, k: nat, cap: nat): nat {
    if head + k < cap then head + k else head + k - cap
  }

  lemma ModOnce(x: nat, cap: nat)
    requires 0 < cap && x < 2 * cap
    ensures x % cap == if x < cap then x else x - cap
  {
    if x >= cap { assert x == cap + (x - cap) && (x - cap) % cap == x - cap; }
  }

  method Around(head: nat, k: nat, cap: nat) returns (r: nat)
    requires head < cap && k <= cap
    ensures r == Slot(head, k, cap) < cap
  {
    ModOnce(head + k, cap);
    r := (head + k) % cap;
  }

  /** The `n` bytes from `head` on. */
  function Ring(ring: seq<Byte>, head: nat, n: nat): (r: seq<Byte>)
    requires head < |ring| && n <= |ring|
    ensures |r| == n && forall k: nat :: k < n ==> r[k] == ring[Slot(head, k, |ring|)]
  {
    seq(n, k requires 0 <= k < n => ring[Slot(head, k, |ring|)])
  }

  /** `ring` with `b` stored from place `at` on, wrapping at the end. */
  function Stored(ring: seq<Byte>, at: nat, b: seq<Byte>): (r: seq<Byte>)
    requires at < |ring| && |b| <= |ring|
    ensures |r| == |ring|
  {
    var first := if |ring| - at > |b| then |b| else |ring| - at;
    b[first..] + ring[|b| - first..at] + b[..first] + ring[at + first..]
  }

  /** The two copies of a read make up the bytes from `head` on. */
  lemma ReadParts(ring: seq<Byte>, head: nat, n: nat, first: nat)
    requires head < |ring| && n <= |ring| && first == if |ring| - head > n then n else |ring| - head
    ensures ring[head..head + first] + ring[..n - first] == Ring(ring, head, n)
  {
  }

  /** The two copies of a write store it, wrapping at the end. */
  lemma WriteParts(ring: seq<Byte>, at: nat, b: seq<Byte>, first: nat)
    requires at < |ring| && |b| <= |ring| && first == if |ring| - at > |b| then |b| else |ring| - at
    ensures var r1 := ring[..at] + b[..first] + ring[at + first..];
      |b| - first <= |r1| && b[first..] + r1[|b| - first..] == Stored(ring, at, b)
  {
  }

  /** The first copy alone changes nothing that the ring holds. */
  lemma FirstPart(ring: seq<Byte>, head: nat, n: nat, b: seq<Byte>)
    requires head < |ring| && n < |ring| && Slot(head, n, |ring|) + |b| <= |ring| && n + |b| <= |ring|
    ensures var at := Slot(head, n, |ring|); Ring(ring[..at] + b + ring[at + |b|..], head, n) == Ring(ring, head, n)
  {
  }

  lemma FillParts(ring: seq<Byte>, head: nat, n: nat, b: seq<Byte>, first: nat, r1: seq<Byte>, r2: seq<Byte>)
    requires head < |ring| && n < |ring| && n + |b| <= |ring|
    requires var at := Slot(head, n, |ring|); first == if |ring| - at > |b| then |b| else |ring| - at
    requires var at := Slot(head, n, |ring|); r1 == ring[..at] + b[..first] + ring[at + first..]
    requires |b| - first <= |r1| && r2 == b[first..] + r1[|b| - first..]
    ensures Ring(r1, head, n) == Ring(ring, head, n) && Ring(r2, head, n + |b|) == Ring(ring, head, n) + b
    ensures |b| == first ==> r2 == r1
  {
    FirstPart(ring, head, n, b[..first]);
    WriteParts(ring, Slot(head, n, |ring|), b, first);
    StoredAppends(ring, head, n, b);
  }

  /** Taking `m` bytes off the front leaves the rest. */
  lemma RingJoin(ring: seq<Byte>, head: nat, n: nat, m: nat, h: nat)
    requires head < |ring| && 0 < m <= n <= |ring| && h == Slot(head, m, |ring|)
    ensures h < |ring| && Ring(ring, head, m) + Ring(ring, h, n - m) == Ring(ring, head, n)
  {
    forall k: nat | m <= k < n ensures Slot(head, k, |ring|) == Slot(h, k - m, |ring|) {}
  }

  lemma Consumed(ring: seq<Byte>, head: nat, n: nat, m: nat, h: nat, out: seq<Byte>)
    requires head < |ring| && 0 < m <= n <= |ring| && h == Slot(head, m, |ring|)
    ensures h < |ring| && (out + Ring(ring, head, m)) + Ring(ring, h, n - m) == out + Ring(ring, head, n)
  {
    RingJoin(ring, head, n, m, h);
    Assoc(out, Ring(ring, head, m), Ring(ring, h, n - m));
  }

  /** Storing behind the contents appends to them. */
  lemma StoredAppends(ring: seq<Byte>, head: nat, n: nat, b: seq<Byte>)
    requires head < |ring| && n + |b| <= |ring| && n < |ring|
    ensures Ring(Stored(ring, Slot(head, n, |ring|), b), head, n + |b|) == Ring(ring, head, n) + b
  {
    var at, cap := Slot(head, n, |ring|), |ring|;
    var first := if cap - at > |b| then |b| else cap - at;
    var r := Stored(ring, at, b);
    forall k: nat | k < n ensures r[Slot(head, k, cap)] == ring[Slot(head, k, cap)] {}
    forall k: nat | k < |b| ensures r[Slot(head, n + k, cap)] == b[k] {}
  }

  /** The `n` bytes behind the contents go around the end of the ring. */
  predicate Wraps(head: nat, count: nat, n: nat, cap: nat) {
    if head + count < cap then head + count + n > cap else head + count + n > 2 * cap
  }

  /** A write of `len` bytes has to wait: the ring is full, or a short write does not fit whole. */
  predicate NoRoom(space: nat, len: nat) {
    space == 0 || (len <= PIPE_BUF && space < len)
  }

  class Pair {
    const ring: array<Byte>
    var count: nat
    var head: nat
    var readEnds: nat
    var writeEnds: nat
    /** Everything read so far, and every chunk written so far. */
    ghost var out: seq<Byte>
    ghost var log: seq<Chunk>

    constructor (cap: nat)
      requires cap > 0
      ensures Valid() && fresh(ring) && ring.Length == cap && out == [] && log == [] && readEnds == writeEnds == 1
    {
      ring := new Byte[cap](_ => 0);
      count, head, readEnds, writeEnds, out, log := 0, 0, 1, 1, [], [];
    }

    ghost function Contents(): seq<Byte>
      reads this, ring
      requires head < ring.Length && count <= ring.Length
    {
      Ring(ring[..], head, count)
    }

    /** What was read, then what the ring holds, is what was written. */
    ghost predicate Valid()
      reads this, ring
    {
      && head < ring.Length && count <= ring.Length
      && (forall i :: 0 <= i < |log| ==> ChunkOk(log[i]))
      && out + Contents() == Stream(log)
    }

    /** The copy of a read's bytes to the reader's buffer; `ok1` and `ok2` tell whether its two parts go through. */
    method CopyOut(n: nat, ok1: bool, ok2: bool) returns (ok: bool, bytes: seq<Byte>)
      requires head < ring.Length && n <= ring.Length
      ensures ok ==> bytes == Ring(ring[..], head, n)
      ensures ok <==> ok1 && (head + n > ring.Length ==> ok2)
    {
      var first := if ring.Length - head > n then n else ring.Length - head;
      ReadParts(ring[..], head, n, first);
      if !ok1 { return false, []; }
      bytes := ring[head..head + first];
      if n > first {
        if !ok2 { return false, []; }
        bytes := bytes + ring[..n - first];
      }
      return true, bytes;
    }

    /** `pipe_read_at`. */
    method ReadAt(len: nat, ok1: bool, ok2: bool) returns (r: ReadResult)
      requires Valid()
      modifies this`count, this`head, this`out
      ensures Valid()
      ensures r.Data? ==> out == old(out) + r.bytes && |r.bytes| == if len < old(count) then len else old(count)
      ensures !r.Data? ==> out == old(out) && head == old(head) && count == old(count)
      ensures r.Eof? <==> len > 0 && old(count) == 0 && writeEnds == 0
      ensures r.Eof? ==> out == Stream(log)
      ensures r.ReadAgain? <==> len > 0 && old(count) == 0 && writeEnds > 0
      ensures var n := if len < old(count) then len else old(count);
        r.ReadFault? <==> n > 0 && !(ok1 && (old(head) + n > ring.Length ==> ok2))
    {
      if len == 0 { return Data([]); }
      if count == 0 { return if writeEnds == 0 then Eof else ReadAgain; }
      var n := if len < count then len else count;
      var ok, bytes := CopyOut(n, ok1, ok2);
      if !ok { return ReadFault; }
      Consumed(ring[..], head, count, n, Slot(head, n, ring.Length), out);
      head := Around(head, n, ring.Length);
      count := count - n;
      out := out + bytes;
      return Data(bytes);
    }

    /** Copies `b` to the ring at `at`, which leaves room for it. */
    method CopyIn(at: nat, b: seq<Byte>)
      requires at + |b| <= ring.Length
      modifies ring
      ensures ring[..] == old(ring[..])[..at] + b + old(ring[..])[at + |b|..]
    {
      forall k | 0 <= k < |b| { ring[at + k] := b[k]; }
    }

    /** The copy of a writer's bytes into the ring behind its contents. */
    method Fill(b: seq<Byte>, ok1: bool, ok2: bool) returns (ok: bool)
      requires head < ring.Length && count < ring.Length && count + |b| <= ring.Length
      modifies ring
      ensures ok ==> Ring(ring[..], head, count + |b|) == old(Contents()) + b
      ensures !ok ==> Contents() == old(Contents())
      ensures ok <==> ok1 && (Wraps(head, count, |b|, ring.Length) ==> ok2)
    {
      var tail := Around(head, count, ring.Length);
      var first := if ring.Length - tail > |b| then |b| else ring.Length - tail;
      if !ok1 { return false; }
      ghost var was := ring[..];
      CopyIn(tail, b[..first]);
      ghost var r1 := ring[..];
      FillParts(was, head, count, b, first, r1, b[first..] + r1[|b| - first..]);
      if |b| > first {
        if !ok2 { return false; }
        CopyIn(0, b[first..]);
        assert ring[..] == b[first..] + r1[|b| - first..];
      }
      return true;
    }

    /** `pipe_write_at` by a holder of a write end. */
    method WriteAt(writer: nat, buf: seq<Byte>, ok1: bool, ok2: bool) returns (r: WriteResult)
      requires Valid() && writeEnds > 0
      modifies this`count, this`log, ring
      ensures Valid()
      ensures r.Wrote? && buf != [] ==> log == old(log) + [Chunk(writer, buf, r.n)]
      ensures r.Wrote? ==> var space := ring.Length - old(count); r.n == if |buf| < space then |buf| else space
      ensures !r.Wrote? || buf == [] ==> log == old(log) && count == old(count)
      ensures r.Broken? <==> buf != [] && readEnds == 0
      ensures var space := ring.Length - old(count);
        r.WriteAgain? <==> buf != [] && readEnds > 0 && NoRoom(space, |buf|)
      ensures var space := ring.Length - old(count); var n := if |buf| < space then |buf| else space;
        r.WriteFault? <==> buf != [] && readEnds > 0 && !NoRoom(space, |buf|) && !(ok1 && (Wraps(head, old(count), n, ring.Length) ==> ok2))
    {
      if buf == [] { return Wrote(0); }
      if readEnds == 0 { return Broken; }
      var space := ring.Length - count;
      if space == 0 || (|buf| <= PIPE_BUF && space < |buf|) { return WriteAgain; }
      var n := if |buf| < space then |buf| else space;
      var ok := Fill(buf[..n], ok1, ok2);
      if !ok { return WriteFault; }
      count := count + n;
      log := log + [Chunk(writer, buf, n)];
      assert log[..|log| - 1] == old(log);
      assert out + (old(Contents()) + buf[..n]) == Stream(old(log)) + buf[..n];
      return Wrote(n);
    }

    /** `pipe_close` of a read or write end. */
    method Close(isRead: bool) returns (last: bool)
      requires Valid() && (if isRead then readEnds > 0 else writeEnds > 0)
      modifies this`readEnds, this`writeEnds
      ensures Valid() && readEnds + writeEnds == old(readEnds + writeEnds) - 1
      ensures if isRead then writeEnds == old(writeEnds) else readEnds == old(readEnds)
      ensures last <==> readEnds == 0 && writeEnds == 0
    {
      if isRead { readEnds := readEnds - 1; } else { writeEnds := writeEnds - 1; }
      last := readEnds + writeEnds == 0;
    }

    /** Others use the pipe; none of them writes as `me`. */
    method Others(ops: seq<Op>, me: nat)
      requires Valid() && writeEnds > 0 && forall i :: 0 <= i < |ops| ==> ops[i].Write? ==> ops[i].writer != me
      modifies this, ring
      ensures Valid() && writeEnds == old(writeEnds) && old(log) <= log && Mine(log, me) == old(Mine(log, me))
    {
      for i := 0 to |ops|
        invariant Valid() && writeEnds == old(writeEnds) && old(log) <= log && Mine(log, me) == old(Mine(log, me))
      {
        match ops[i] {
          case Write(w, buf) =>
            ghost var log1 := log;
            var r := WriteAt(w, buf, true, true);
            if r.Wrote? && buf != [] { MineMore(log1, Chunk(w, buf, r.n), me); }
          case Read(len) =>
            var r := ReadAt(len, true, true);
          case CloseRead =>
            if readEnds > 0 { var last := Close(true); }
        }
      }
    }

    /**
     The retry loop of a blocking write; `turns[i]` is what others do while it waits for the time number `i`, and after
     the last turn a signal ends the wait. It gives up only when no read end is left or when it is interrupted without room.
     */
    method FdWrite(me: nat, buf: seq<Byte>, turns: seq<seq<Op>>) returns (total: nat, last: WriteResult, waits: nat)
      requires Valid() && writeEnds > 0
      requires forall i, j :: 0 <= i < |turns| && 0 <= j < |turns[i]| ==> turns[i][j].Write? ==> turns[i][j].writer != me
      modifies this, ring
      ensures Valid() && old(log) <= log && total <= |buf| && Mine(log, me) == old(Mine(log, me)) + buf[..total]
      ensures |buf| <= PIPE_BUF ==> total == 0 || total == |buf|
      ensures |buf| <= PIPE_BUF && total > 0 ==> InOnePiece(Stream(log), |Stream(old(log))|, buf)
      ensures total == |buf| <==> last == Wrote(0)
      ensures total < |buf| ==> last.Broken? || last.WriteAgain?
      ensures last.Broken? ==> readEnds == 0
      ensures waits <= |turns| && (last.WriteAgain? ==> waits == |turns|)
      ensures last.WriteAgain? ==> readEnds > 0 && NoRoom(ring.Length - count, |buf| - total)
    {
      total, last, waits := 0, Wrote(0), 0;
      ghost var at: nat := 0;
      assert buf[..0] == [];
      while true
        invariant Valid() && writeEnds > 0 && old(log) <= log && waits <= |turns| && total <= |buf|
        invariant Mine(log, me) == old(Mine(log, me)) + buf[..total]
        invariant |buf| <= PIPE_BUF ==> total == 0 || total == |buf|
        invariant |buf| <= PIPE_BUF && total > 0 ==> |old(log)| <= at < |log| && log[at] == Chunk(me, buf, |buf|)
        decreases |turns| - waits, |buf| - total
      {
        ghost var log1 := log;
        last := WriteAt(me, buf[total..], true, true);
        match last {
          case WriteAgain =>
            if waits == |turns| { break; }
            Others(turns[waits], me);
            waits := waits + 1;
          case Broken => break;
          case WriteFault => break;
          case Wrote(k) =>
            if k == 0 { break; }
            MineGrows(log1, me, buf, total, k, old(Mine(log, me)));
            if total == 0 { assert buf[0..] == buf; at := |log1|; }
            total := total + k;
        }
      }
      if |buf| <= PIPE_BUF && total > 0 { WholeChunk(log, old(log), at, me, buf); }
    }
  }
}
