/** The pipe: a ring buffer behind two ends. */
module Pipes {
  import opened Blocks
  import opened Collections

  const DEFAULT_PIPE_CAPACITY: nat := 4096

  function Concat(bufs: seq<seq<Byte>>): (r: seq<Byte>)
    decreases |bufs|
  {
    if bufs == [] then [] else Concat(bufs[..|bufs| - 1]) + bufs[|bufs| - 1]
  }

  function Sum(sizes: seq<nat>): (n: nat)
    decreases |sizes|
  {
    if sizes == [] then 0 else Sum(sizes[..|sizes| - 1]) + sizes[|sizes| - 1]
  }

  lemma Wraps(x: nat, cap: nat)
    requires 0 < cap && x < 2 * cap
    ensures x % cap == if x < cap then x else x - cap
  {
    if x >= cap { assert x == 1 * cap + (x - cap); }
  }

  /** Slot of the `i`-th byte from `head`, in a ring of `cap` slots. */
  function Slot(head: nat, i: nat, cap: nat): (k: nat)
    requires 0 < cap
    ensures k < cap
  {
    (head + i) % cap
  }

  /** The bytes a ring holds, oldest first. */
  function Ring(buf: seq<Byte>, head: nat, len: nat): (r: seq<Byte>)
    requires 0 < |buf|
    ensures |r| == len && forall i | 0 <= i < len :: r[i] == buf[Slot(head, i, |buf|)]
  {
    seq<Byte>(len, i requires 0 <= i < len => buf[Slot(head, i, |buf|)])
  }

  predicate RingOk(cap: nat, head: nat, tail: nat, len: nat) {
    0 < cap && head < cap && tail < cap && len <= cap && tail == (head + len) % cap
  }

  /** Taking `chunk` bytes that do not wrap. */
  lemma TakeChunk(buf: seq<Byte>, head: nat, tail: nat, len: nat, chunk: nat)
    requires RingOk(|buf|, head, tail, len) && chunk <= len && head + chunk <= |buf|
    ensures Ring(buf, head, len)[..chunk] == buf[head..head + chunk]
    ensures RingOk(|buf|, (head + chunk) % |buf|, tail, len - chunk)
    ensures Ring(buf, (head + chunk) % |buf|, len - chunk) == Ring(buf, head, len)[chunk..]
  {
    var cap := |buf|;
    var h := (head + chunk) % cap;
    Wraps(head + chunk, cap);
    Wraps(head + len, cap);
    Wraps(h + (len - chunk), cap);
    forall i | 0 <= i < len ensures i < chunk ==> Slot(head, i, cap) == head + i {
      Wraps(head + i, cap);
    }
    forall i | 0 <= i < len - chunk ensures Slot(h, i, cap) == Slot(head, chunk + i, cap) {
      Wraps(h + i, cap);
      Wraps(head + chunk + i, cap);
    }
  }

  /** Putting `data` into free slots that do not wrap. */
  lemma PutChunk(buf: seq<Byte>, head: nat, tail: nat, len: nat, data: seq<Byte>)
    requires RingOk(|buf|, head, tail, len) && len + |data| <= |buf| && tail + |data| <= |buf|
    ensures RingOk(|buf|, head, (tail + |data|) % |buf|, len + |data|)
    ensures var r := buf[..tail] + data + buf[tail + |data|..];
            |r| == |buf| && Ring(r, head, len + |data|) == Ring(buf, head, len) + data
  {
    var cap, m := |buf|, |data|;
    var r := buf[..tail] + data + buf[tail + m..];
    Wraps(head + len, cap);
    Wraps(tail + m, cap);
    if m > 0 || len < cap { Wraps(head + len + m, cap); }
    forall i | 0 <= i < len + m
      ensures r[Slot(head, i, cap)] == if i < len then buf[Slot(head, i, cap)] else data[i - len]
    {
      Wraps(head + i, cap);
    }
  }

  class PipeBuffer {
    const buf: array<Byte>
    var head: nat
    var tail: nat
    var len: nat
    var readOpen: bool
    var writeOpen: bool

    predicate Valid()
      reads this
    {
      RingOk(buf.Length, head, tail, len)
    }

    function Contents(): (r: seq<Byte>)
      requires Valid()
      reads this, buf
    {
      Ring(buf[..], head, len)
    }

    function Value(): (s: Fifo)
      requires Valid()
      reads this, buf
      ensures |s.contents| <= s.capacity
    {
      Fifo(Contents(), buf.Length, readOpen, writeOpen)
    }

    constructor (capacity: nat)
      ensures Valid() && Contents() == [] && readOpen && writeOpen && fresh(buf)
      ensures buf.Length == if capacity < 1 then 1 else capacity
    {
      buf := new Byte[if capacity < 1 then 1 else capacity](_ => 0);
      head, tail, len := 0, 0, 0;
      readOpen, writeOpen := true, true;
    }

    /** `read_into`: the oldest bytes, as many as fit and are there. */
    method ReadInto(out: array<Byte>) returns (read: nat)
      requires Valid() && out != buf
      modifies this`head, this`len, out
      ensures Valid() && read == Min(out.Length, |old(Contents())|)
      ensures out[..read] == old(Contents())[..read] && out[read..] == old(out[read..])
      ensures Contents() == old(Contents())[read..]
    {
      hide Ring, RingOk;
      ghost var all, was := Contents(), out[..];
      read := 0;
      RingFacts(buf[..], head, tail, len);
      while read < out.Length && len > 0
        invariant read <= out.Length && read <= |all| && Valid() && Contents() == all[read..] && len == |all| - read
        invariant out[..] == all[..read] + was[read..]
        decreases len
      {
        var chunk := ReadChunk(out, read);
        Advance(all, was, read, chunk);
        read := read + chunk;
      }
      assert out[..read] == out[..][..read] && out[read..] == out[..][read..];
    }

    /** `read_into` a buffer of the given size; returns what it was filled with. */
    method TakeUpTo(size: nat) returns (bytes: seq<Byte>)
      requires Valid()
      modifies this`head, this`len
      ensures Valid() && len == |Contents()|
      ensures |bytes| == Min(size, |old(Contents())|) && bytes + Contents() == old(Contents())
    {
      hide Ring, RingOk;
      ghost var c := Contents();
      var out := new Byte[size];
      var n := ReadInto(out);
      RingFacts(buf[..], head, tail, len);
      bytes := out[..n];
      assert c == c[..n] + c[n..];
    }

    /** The loop body of `read_into`: up to the end of the ring. */
    method ReadChunk(out: array<Byte>, read: nat) returns (chunk: nat)
      requires Valid() && out != buf && read < out.Length && len > 0
      modifies this`head, this`len, out
      ensures Valid() && 0 < chunk <= |old(Contents())| && read + chunk <= out.Length
      ensures len == old(len) - chunk && Contents() == old(Contents())[chunk..]
      ensures out[..] == old(out[..])[..read] + old(Contents())[..chunk] + old(out[..])[read + chunk..]
    {
      hide Ring, RingOk;
      RingFacts(buf[..], head, tail, len);
      var cap := buf.Length;
      chunk := Min(Min(cap - head, len), out.Length - read);
      ghost var b := buf[..];
      TakeChunk(b, head, tail, len, chunk);
      CopyOut(out, read, head, chunk);
      assert buf[..] == b;
      head := (head + chunk) % cap;
      len := len - chunk;
    }

    static lemma Advance(all: seq<Byte>, was: seq<Byte>, read: nat, chunk: nat)
      requires read + chunk <= |all| && read + chunk <= |was|
      ensures var now := all[..read] + was[read..];
              now[..read] + all[read..][..chunk] + now[read + chunk..] == all[..read + chunk] + was[read + chunk..]
      ensures all[read..][chunk..] == all[read + chunk..]
    {
    }

    static lemma RingFacts(b: seq<Byte>, head: nat, tail: nat, len: nat)
      requires RingOk(|b|, head, tail, len)
      ensures |b| > 0 && head < |b| && tail < |b| && len <= |b| && |Ring(b, head, len)| == len
    {
    }

    /** `copy_from_slice` out of the ring. */
    method CopyOut(out: array<Byte>, at: nat, from: nat, n: nat)
      requires out != buf && at + n <= out.Length && from + n <= buf.Length
      modifies out
      ensures out[..] == old(out[..])[..at] + buf[from..from + n] + old(out[..])[at + n..]
    {
      forall i | 0 <= i < n { out[at + i] := buf[from + i]; }
    }

    /** `copy_from_slice` into the ring. */
    method CopyIn(at: nat, data: seq<Byte>)
      requires at + |data| <= buf.Length
      modifies buf
      ensures buf[..] == old(buf[..])[..at] + data + old(buf[..])[at + |data|..]
    {
      forall i | 0 <= i < |data| { buf[at + i] := data[i]; }
    }

    /** `write_from`: appends as many bytes as there is space for. */
    method WriteFrom(data: seq<Byte>) returns (written: nat)
      requires Valid()
      modifies this`tail, this`len, buf
      ensures Valid() && written == Min(|data|, buf.Length - |old(Contents())|)
      ensures Contents() == old(Contents()) + data[..written]
    {
      hide Ring, RingOk;
      ghost var all := Contents();
      written := 0;
      RingFacts(buf[..], head, tail, len);
      while written < |data| && len < buf.Length
        invariant written <= |data| && Valid() && Contents() == all + data[..written]
        invariant len == |all| + written <= buf.Length
        decreases |data| - written
      {
        var chunk := WriteChunk(data[written..]);
        assert data[..written + chunk] == data[..written] + data[written..][..chunk];
        written := written + chunk;
      }
    }

    /** The loop body of `write_from`: up to the end of the ring. */
    method WriteChunk(data: seq<Byte>) returns (chunk: nat)
      requires Valid() && 0 < |data| && len < buf.Length
      modifies this`tail, this`len, buf
      ensures Valid() && 0 < chunk <= |data| && len == old(len) + chunk <= buf.Length
      ensures Contents() == old(Contents()) + data[..chunk]
    {
      hide Ring, RingOk;
      RingFacts(buf[..], head, tail, len);
      var cap := buf.Length;
      chunk := Min(Min(cap - tail, cap - len), |data|);
      PutChunk(buf[..], head, tail, len, data[..chunk]);
      CopyIn(tail, data[..chunk]);
      tail := (tail + chunk) % cap;
      len := len + chunk;
    }
  }

  // ---------- buffers split into slices ----------

  /** Concatenation keeps the order of the buffers. */
  lemma {:induction false} ConcatJoins(a: seq<seq<Byte>>, b: seq<seq<Byte>>)
    ensures Concat(a + b) == Concat(a) + Concat(b)
    decreases |b|
  {
    if b == [] {
      assert a + b == a;
    } else {
      var init, last := b[..|b| - 1], b[|b| - 1];
      assert (a + b)[..|a + b| - 1] == a + init;
      ConcatJoins(a, init);
      assert (Concat(a) + Concat(init)) + last == Concat(a) + (Concat(init) + last);
    }
  }

  lemma ConcatOne(c: seq<Byte>)
    ensures Concat([c]) == c
  {
    assert [c][..0] == [];
    assert [] + c == c;
  }

  lemma {:induction false} ConcatPrefix(bufs: seq<seq<Byte>>, k: nat, offset: nat)
    requires k < |bufs| && offset <= |bufs[k]|
    ensures var n := |Concat(bufs[..k])| + offset;
            n <= |Concat(bufs)| && Concat(bufs)[..n] == Concat(bufs[..k]) + bufs[k][..offset]
    decreases |bufs|
  {
    var last := |bufs| - 1;
    if k < last {
      ConcatPrefix(bufs[..last], k, offset);
      assert bufs[..last][..k] == bufs[..k];
    }
  }

  lemma {:induction false} SumPrefix(sizes: seq<nat>, k: nat)
    requires k < |sizes|
    ensures Sum(sizes[..k]) + sizes[k] <= Sum(sizes)
    decreases |sizes|
  {
    var last := |sizes| - 1;
    if k < last {
      SumPrefix(sizes[..last], k);
      assert sizes[..last][..k] == sizes[..k];
    }
  }

  lemma TakenMore(total: seq<Byte>, c: seq<Byte>, bytes: seq<Byte>, rest: seq<Byte>)
    requires bytes + rest == c
    ensures (total + bytes) + rest == total + c
  {
    assert (total + bytes) + rest == total + (bytes + rest);
  }

  datatype ReadResult = Delivered(bytes: seq<Byte>) | ReadWouldBlock
  datatype WriteResult = Stored(n: nat) | WriteWouldBlock | BrokenPipe
  datatype PollEvents = PollEvents(pollIn: bool, pollOut: bool)

  class PipeEnd {
    const readable: bool
    const writable: bool
    const pipe: PipeBuffer

    constructor (pipe: PipeBuffer, readable: bool, writable: bool)
      ensures this.pipe == pipe && this.readable == readable && this.writable == writable
    {
      this.pipe, this.readable, this.writable := pipe, readable, writable;
    }

    /** `Drop`. */
    method Drop()
      modifies pipe`readOpen, pipe`writeOpen
      ensures pipe.readOpen == (old(pipe.readOpen) && !readable)
      ensures pipe.writeOpen == (old(pipe.writeOpen) && !writable)
    {
      if readable { pipe.readOpen := false; }
      if writable { pipe.writeOpen := false; }
    }

    /** `read` into slices of the given sizes, up to where it would wait: it waits only before the first byte, and
        otherwise delivers the oldest bytes, as many as fit and are there. */
    method Read(sizes: seq<nat>) returns (r: ReadResult)
      requires pipe.Valid()
      modifies pipe`head, pipe`len
      ensures pipe.Valid()
      ensures r.ReadWouldBlock? <==> sizes != [] && old(pipe.Contents()) == [] && pipe.writeOpen
      ensures r.ReadWouldBlock? ==> pipe.Contents() == old(pipe.Contents())
      ensures r.Delivered? ==>
                && |r.bytes| == Min(Sum(sizes), |old(pipe.Contents())|)
                && r.bytes + pipe.Contents() == old(pipe.Contents())
    {
      hide RingOk, Ring;
      ghost var all := pipe.Contents();
      var total: seq<Byte> := [];
      var k: nat := 0;
      assert sizes[..0] == [];
      PipeBuffer.RingFacts(pipe.buf[..], pipe.head, pipe.tail, pipe.len);
      while k < |sizes|
        invariant k <= |sizes| && pipe.Valid() && pipe.writeOpen == old(pipe.writeOpen)
        invariant total + pipe.Contents() == all && pipe.len == |pipe.Contents()|
        invariant |total| == Min(Sum(sizes[..k]), |all|)
        invariant k > 0 ==> all != [] || !pipe.writeOpen
      {
        SumPrefix(sizes, k);
        assert sizes[..k + 1][..k] == sizes[..k];
        if pipe.len > 0 {
          ghost var c := pipe.Contents();
          var bytes := pipe.TakeUpTo(sizes[k]);
          TakenMore(total, c, bytes, pipe.Contents());
          total := total + bytes;
        } else if !pipe.writeOpen || |total| > 0 {
          return Delivered(total);
        } else {
          return ReadWouldBlock;
        }
        k := k + 1;
      }
      assert sizes[..k] == sizes;
      r := Delivered(total);
    }

    /** `write_user_buffer`, up to where it would wait: it waits only before the first byte, fails on a pipe nobody
        reads, and otherwise stores as many bytes as there is space for. */
    method Write(bufs: seq<seq<Byte>>) returns (r: WriteResult)
      requires pipe.Valid()
      modifies pipe`tail, pipe`len, pipe.buf
      ensures pipe.Valid()
      ensures r.BrokenPipe? <==> Concat(bufs) != [] && !pipe.readOpen
      ensures r.WriteWouldBlock? <==> Concat(bufs) != [] && |old(pipe.Contents())| == pipe.buf.Length && pipe.readOpen
      ensures !r.Stored? ==> pipe.Contents() == old(pipe.Contents())
      ensures r.Stored? ==>
                && r.n == Min(|Concat(bufs)|, pipe.buf.Length - |old(pipe.Contents())|)
                && pipe.Contents() == old(pipe.Contents()) + Concat(bufs)[..r.n]
    {
      hide RingOk, Ring;
      ghost var all, space := pipe.Contents(), pipe.buf.Length - |pipe.Contents()|;
      var total, k: nat := 0, 0;
      assert bufs[..0] == [];
      PipeBuffer.RingFacts(pipe.buf[..], pipe.head, pipe.tail, pipe.len);
      while k < |bufs|
        invariant k <= |bufs| && pipe.Valid() && total <= space
        invariant total == |Concat(bufs[..k])| && pipe.len == |all| + total && pipe.Contents() == all + Concat(bufs[..k])
        invariant total > 0 ==> pipe.readOpen
      {
        var slice, offset: nat := bufs[k], 0;
        assert slice[..0] == [];
        assert bufs[..k + 1][..k] == bufs[..k];
        while offset < |slice|
          invariant offset <= |slice| && pipe.Valid() && total <= space
          invariant total == |Concat(bufs[..k])| + offset && pipe.len == |all| + total
          invariant pipe.Contents() == all + (Concat(bufs[..k]) + slice[..offset])
          invariant total > 0 ==> pipe.readOpen
        {
          ConcatPrefix(bufs, k, offset);
          ConcatPrefix(bufs, k, |slice|);
          if !pipe.readOpen { return BrokenPipe; }
          if pipe.len < pipe.buf.Length {
            var n := pipe.WriteFrom(slice[offset..]);
            PipeBuffer.RingFacts(pipe.buf[..], pipe.head, pipe.tail, pipe.len);
            assert slice[..offset] + slice[offset..][..n] == slice[..offset + n];
            total, offset := total + n, offset + n;
          } else {
            return if total > 0 then Stored(total) else WriteWouldBlock;
          }
        }
        assert slice[..offset] == slice;
        k := k + 1;
      }
      assert bufs[..k] == bufs;
      r := Stored(total);
    }

    /** `poll`: ready exactly when the matching read or write would not wait. */
    method Poll(events: PollEvents) returns (r: PollEvents)
      requires pipe.Valid()
      ensures r.pollIn <==> events.pollIn && readable && (pipe.Contents() != [] || !pipe.writeOpen)
      ensures r.pollOut <==> events.pollOut && writable && (|pipe.Contents()| < pipe.buf.Length || !pipe.readOpen)
    {
      r := PollEvents(false, false);
      if events.pollIn && readable && (pipe.len > 0 || !pipe.writeOpen) {
        r := r.(pollIn := true);
      }
      if events.pollOut && writable && (pipe.len < pipe.buf.Length || !pipe.readOpen) {
        r := r.(pollOut := true);
      }
    }
  }

  /** `make_pipe`. */
  method MakePipe(capacity: nat) returns (reader: PipeEnd, writer: PipeEnd)
    ensures reader.pipe == writer.pipe && reader.pipe.Valid() && reader.pipe.Contents() == []
    ensures reader.readable && !reader.writable && writer.writable && !writer.readable
    ensures reader.pipe.readOpen && reader.pipe.writeOpen
    ensures reader.pipe.buf.Length >= 4096 && reader.pipe.buf.Length >= capacity
    ensures reader.pipe.buf.Length == 4096 || reader.pipe.buf.Length == capacity
  {
    var pipe := new PipeBuffer(if capacity < DEFAULT_PIPE_CAPACITY then DEFAULT_PIPE_CAPACITY else capacity);
    reader := new PipeEnd(pipe, true, false);
    writer := new PipeEnd(pipe, false, true);
  }

  // ---------- interleavings ----------

  /** A pipe as a bounded queue of bytes. */
  datatype Fifo = Fifo(contents: seq<Byte>, capacity: nat, readOpen: bool, writeOpen: bool)

  /** What one holder of the pipe's lock does; a write finds out there whether anybody reads. */
  datatype PipeStep = Take(size: nat) | Give(data: seq<Byte>) | CloseReader | CloseWriter

  /** The bytes a section delivers, and those it stores. */
  datatype Moved = Moved(taken: seq<Byte>, given: seq<Byte>)

  function Moves(s: Fifo, step: PipeStep): (m: Moved)
    requires |s.contents| <= s.capacity
  {
    match step
    case Take(size) => Moved(s.contents[..Min(size, |s.contents|)], [])
    case Give(data) => Moved([], if s.readOpen then data[..Min(|data|, s.capacity - |s.contents|)] else [])
    case CloseReader => Moved([], [])
    case CloseWriter => Moved([], [])
  }

  function Next(s: Fifo, step: PipeStep): (r: Fifo)
    requires |s.contents| <= s.capacity
    ensures |r.contents| <= r.capacity == s.capacity
  {
    var m := Moves(s, step);
    match step
    case Take(_) => s.(contents := s.contents[|m.taken|..])
    case Give(_) => s.(contents := s.contents + m.given)
    case CloseReader => s.(readOpen := false)
    case CloseWriter => s.(writeOpen := false)
  }

  function RunFrom(s: Fifo, steps: seq<PipeStep>): (r: Fifo)
    requires |s.contents| <= s.capacity
    ensures |r.contents| <= r.capacity == s.capacity
    decreases |steps|
  {
    if steps == [] then s else Next(RunFrom(s, steps[..|steps| - 1]), steps[|steps| - 1])
  }

  /** What each section moved. */
  function Trace(s: Fifo, steps: seq<PipeStep>): (ms: seq<Moved>)
    requires |s.contents| <= s.capacity
    ensures |ms| == |steps|
    decreases |steps|
  {
    if steps == [] then []
    else Trace(s, steps[..|steps| - 1]) + [Moves(RunFrom(s, steps[..|steps| - 1]), steps[|steps| - 1])]
  }

  function AllTaken(ms: seq<Moved>): (r: seq<Byte>)
    decreases |ms|
  {
    if ms == [] then [] else AllTaken(ms[..|ms| - 1]) + ms[|ms| - 1].taken
  }

  function AllGiven(ms: seq<Moved>): (r: seq<Byte>)
    decreases |ms|
  {
    if ms == [] then [] else AllGiven(ms[..|ms| - 1]) + ms[|ms| - 1].given
  }

  /** Over any interleaving of locked sections, the bytes read followed by the bytes still held are the bytes held
      at first followed by the bytes accepted. */
  lemma {:induction false} RunsAreFifo(s: Fifo, steps: seq<PipeStep>)
    requires |s.contents| <= s.capacity
    ensures var ms := Trace(s, steps); AllTaken(ms) + RunFrom(s, steps).contents == s.contents + AllGiven(ms)
    decreases |steps|
  {
    hide Next, Moves;
    if steps != [] {
      var n := |steps| - 1;
      RunsAreFifo(s, steps[..n]);
      var before, ms := RunFrom(s, steps[..n]), Trace(s, steps);
      assert ms[..n] == Trace(s, steps[..n]);
      StepIsFifo(before, steps[n]);
      Joined(s.contents, AllTaken(ms[..n]), AllGiven(ms[..n]), before.contents, ms[n], RunFrom(s, steps).contents);
    }
  }

  lemma StepIsFifo(s: Fifo, step: PipeStep)
    requires |s.contents| <= s.capacity
    ensures Moves(s, step).taken + Next(s, step).contents == s.contents + Moves(s, step).given
  {
  }

  /** A section moves as much as it can: a read up to its size or until the pipe is empty, a write up to its data or
      until the pipe is full, and nothing when nobody reads. Only the closing sections touch the open flags. */
  lemma SectionIsGreedy(s: Fifo, step: PipeStep)
    requires |s.contents| <= s.capacity
    ensures var m, r := Moves(s, step), Next(s, step);
            && r.capacity == s.capacity
            && (r.readOpen <==> s.readOpen && !step.CloseReader?) && (r.writeOpen <==> s.writeOpen && !step.CloseWriter?)
            && (m.taken != [] ==> step.Take?) && (m.given != [] ==> step.Give? && s.readOpen)
            && (step.Take? ==> m.taken <= s.contents && |m.taken| <= step.size && (|m.taken| == step.size || r.contents == []))
            && (step.Give? ==> m.given <= step.data)
            && (step.Give? && s.readOpen ==> m.given == step.data || |r.contents| == s.capacity)
  {
    StepIsFifo(s, step);
  }

  lemma Joined(start: seq<Byte>, taken: seq<Byte>, given: seq<Byte>, c: seq<Byte>, m: Moved, d: seq<Byte>)
    requires taken + c == start + given && m.taken + d == c + m.given
    ensures (taken + m.taken) + d == start + (given + m.given)
  {
    assert (taken + m.taken) + d == taken + (m.taken + d) == (taken + c) + m.given;
  }

  /** One locked section. */
  method Act(pipe: PipeBuffer, step: PipeStep) returns (m: Moved)
    requires pipe.Valid()
    modifies pipe, pipe.buf
    ensures pipe.Valid() && pipe.Value() == Next(old(pipe.Value()), step) && m == Moves(old(pipe.Value()), step)
  {
    hide RingOk, Ring;
    PipeBuffer.RingFacts(pipe.buf[..], pipe.head, pipe.tail, pipe.len);
    m := Moved([], []);
    match step {
      case Take(size) =>
        ghost var c := pipe.Contents();
        var bytes := pipe.TakeUpTo(size);
        assert bytes == c[..|bytes|] && pipe.Contents() == c[|bytes|..];
        m := Moved(bytes, []);
      case Give(data) =>
        if pipe.readOpen {
          var n := pipe.WriteFrom(data);
          m := Moved([], data[..n]);
        } else {
          assert pipe.Contents() + [] == pipe.Contents();
        }
      case CloseReader => pipe.readOpen := false;
      case CloseWriter => pipe.writeOpen := false;
    }
  }

  /** Performs the sections: the ring's end state and what each moved are those of the byte queue. */
  method Interleave(pipe: PipeBuffer, steps: seq<PipeStep>) returns (ms: seq<Moved>)
    requires pipe.Valid()
    modifies pipe, pipe.buf
    ensures pipe.Valid() && pipe.Value() == RunFrom(old(pipe.Value()), steps) && ms == Trace(old(pipe.Value()), steps)
    ensures AllTaken(ms) + pipe.Contents() == old(pipe.Contents()) + AllGiven(ms)
  {
    hide RingOk, Ring, Next, Moves;
    ms := [];
    assert steps[..0] == [];
    for i := 0 to |steps|
      invariant pipe.Valid() && pipe.Value() == RunFrom(old(pipe.Value()), steps[..i])
      invariant ms == Trace(old(pipe.Value()), steps[..i])
    {
      assert steps[..i + 1][..i] == steps[..i];
      var m := Act(pipe, steps[i]);
      ms := ms + [m];
    }
    assert steps[..|steps|] == steps;
    RunsAreFifo(old(pipe.Value()), steps);
  }
}
