/** Physical page frames: the stack allocator, and reference-counted frame trackers over it. */
module Frames {
  import opened Blocks
  import opened Collections

  type Ppn = nat

  const PAGE_SIZE: nat := 4096
  /** Addresses are 64-bit words. */
  const USIZE: nat := 0x1_0000_0000_0000_0000

  type Page = p: seq<Byte> | |p| == PAGE_SIZE witness ZeroBytes(PAGE_SIZE)
  const ZeroPage: Page := ZeroBytes(PAGE_SIZE)

  ghost predicate AllocatorOk(base: Ppn, current: Ppn, end: Ppn, recycled: seq<Ppn>) {
    && base <= current <= end
    && Distinct(recycled)
    && forall k | 0 <= k < |recycled| :: base <= recycled[k] < current
  }

  /** Frame `p` is handed out and not yet returned. */
  predicate Live(base: Ppn, current: Ppn, recycled: seq<Ppn>, p: Ppn) {
    base <= p < current && p !in recycled
  }

  class StackFrameAllocator {
    ghost var base: Ppn
    var current: Ppn
    var end: Ppn
    var recycled: seq<Ppn>

    ghost predicate Valid()
      reads this
    {
      AllocatorOk(base, current, end, recycled)
    }

    ghost predicate IsLive(p: Ppn)
      reads this
    {
      Live(base, current, recycled, p)
    }

    constructor (l: Ppn, r: Ppn)
      requires l <= r
      ensures Valid() && base == l && current == l && end == r && recycled == []
      ensures forall p :: !IsLive(p)
    {
      base, current, end, recycled := l, l, r, [];
    }

    /** `alloc`: a frame that was not live, and no other change to what is live; `None` exactly when every
        frame of the range is live. */
    method Alloc() returns (r: Option<Ppn>)
      requires Valid()
      modifies this`current, this`recycled
      ensures Valid()
      ensures r.None? <==> (forall p | base <= p < end :: old(IsLive(p)))
      ensures r.None? <==> old(recycled) == [] && old(current) == end
      ensures r.None? ==> current == old(current) && recycled == old(recycled)
      ensures r.Some? ==> base <= r.value < end && !old(IsLive(r.value))
      ensures r.Some? ==> forall p :: IsLive(p) <==> old(IsLive(p)) || p == r.value
      ensures r.Some? ==> if old(recycled) == [] then r.value == old(current) && current == old(current) + 1 && recycled == []
                          else current == old(current) && recycled + [r.value] == old(recycled)
    {
      if |recycled| > 0 {
        var top := recycled[|recycled| - 1];
        recycled := recycled[..|recycled| - 1];
        assert forall p :: p in old(recycled) <==> p in recycled || p == top;
        r := Some(top);
        assert !old(IsLive(top));
      } else if current == end {
        r := None;
      } else {
        assert !old(IsLive(current));
        current := current + 1;
        r := Some(current - 1);
      }
    }

    /** `alloc_more`: frames that were not live, in descending order; refused as soon as the request would reach
        the end of the range, recycled frames not counted. */
    method AllocMore(pages: nat) returns (r: Option<seq<Ppn>>)
      requires Valid()
      modifies this`current
      ensures Valid()
      ensures r.None? <==> old(current) + pages >= end
      ensures r.None? ==> current == old(current)
      ensures r.Some? ==> |r.value| == pages && Distinct(r.value) && forall k | 0 <= k < pages :: !old(IsLive(r.value[k]))
      ensures r.Some? ==> forall p :: IsLive(p) <==> old(IsLive(p)) || p in r.value
    {
      if current + pages >= end {
        return None;
      }
      current := current + pages;
      var top := current;
      var v := seq<Ppn>(pages, k requires 0 <= k < pages => top - 1 - k);
      forall p | old(current) <= p < current ensures p in v {
        assert v[current - 1 - p] == p;
      }
      r := Some(v);
    }

    /** `dealloc`: the check that panics is the precondition's second half. */
    method Dealloc(p: Ppn)
      requires Valid() && base <= p < current && p !in recycled
      modifies this`recycled
      ensures Valid() && recycled == old(recycled) + [p]
      ensures forall q :: IsLive(q) <==> old(IsLive(q)) && q != p
    {
      recycled := recycled + [p];
    }
  }

  // ---------- frame trackers ----------

  /** The allocator, the strong count of every live frame's `Arc<FrameTracker>`, and physical memory. */
  datatype Pool = Pool(base: Ppn, current: Ppn, end: Ppn, recycled: seq<Ppn>, refs: map<Ppn, nat>, mem: map<Ppn, Page>)

  /** Every live frame has a positive count and contents; nothing else has a count. */
  ghost predicate PoolOk(pool: Pool) {
    && 0 < pool.base
    && AllocatorOk(pool.base, pool.current, pool.end, pool.recycled)
    && (forall p :: p in pool.refs <==> Live(pool.base, pool.current, pool.recycled, p))
    && (forall p | p in pool.refs :: pool.refs[p] > 0 && p in pool.mem)
  }

  function Refs(pool: Pool, p: Ppn): (n: nat) {
    if p in pool.refs then pool.refs[p] else 0
  }

  predicate Exhausted(pool: Pool) {
    pool.recycled == [] && pool.current == pool.end
  }

  /** The frame the allocator hands out next. */
  function NextFrame(pool: Pool): (p: Ppn)
    requires !Exhausted(pool)
  {
    if pool.recycled != [] then pool.recycled[|pool.recycled| - 1] else pool.current
  }

  /** `frame_alloc`, wrapped in an `Arc`: the frame is zeroed and has one reference. */
  function AllocFrame(pool: Pool): (r: Pool)
    requires !Exhausted(pool)
  {
    var p := NextFrame(pool);
    var q := if pool.recycled != [] then pool.(recycled := pool.recycled[..|pool.recycled| - 1])
             else pool.(current := pool.current + 1);
    q.(refs := pool.refs[p := 1], mem := pool.mem[p := ZeroPage])
  }

  /** `Arc::clone`. */
  function CloneRef(pool: Pool, p: Ppn): (r: Pool) {
    if p in pool.refs then pool.(refs := pool.refs[p := pool.refs[p] + 1]) else pool
  }

  /** Dropping an `Arc`; the last drop returns the frame to the allocator. */
  function DropRef(pool: Pool, p: Ppn): (r: Pool) {
    if p !in pool.refs then pool
    else if pool.refs[p] == 1 then pool.(refs := pool.refs - {p}, recycled := pool.recycled + [p])
    else pool.(refs := pool.refs[p := if pool.refs[p] == 0 then 0 else pool.refs[p] - 1])
  }

  function Contents(pool: Pool, p: Ppn): (page: Page) {
    if p in pool.mem then pool.mem[p] else ZeroPage
  }

  function WritePage(pool: Pool, p: Ppn, page: Page): (r: Pool) {
    pool.(mem := pool.mem[p := page])
  }

  /** Allocation never disturbs a live frame. */
  lemma AllocFresh(pool: Pool)
    requires PoolOk(pool) && !Exhausted(pool)
    ensures var p, r := NextFrame(pool), AllocFrame(pool);
            && PoolOk(r) && p !in pool.refs && 0 < p < pool.end
            && Contents(r, p) == ZeroPage
            && (forall q :: Refs(r, q) == if q == p then 1 else Refs(pool, q))
            && (forall q | q != p :: Contents(r, q) == Contents(pool, q))
  {
    if pool.recycled != [] {
      var n := |pool.recycled| - 1;
      assert forall q :: q in pool.recycled <==> q in pool.recycled[..n] || q == pool.recycled[n];
    }
  }

  /** A frame is freed exactly when its count reaches zero, and `dealloc` cannot panic. */
  lemma DropKeeps(pool: Pool, p: Ppn)
    requires PoolOk(pool) && p in pool.refs
    ensures pool.base <= p < pool.current && p !in pool.recycled
    ensures PoolOk(DropRef(pool, p)) && DropRef(pool, p).mem == pool.mem
    ensures forall q :: Refs(DropRef(pool, p), q) == Refs(pool, q) - if q == p then 1 else 0
  {
  }

  lemma WriteKeeps(pool: Pool, p: Ppn, page: Page)
    requires PoolOk(pool)
    ensures PoolOk(WritePage(pool, p, page))
    ensures forall q :: Refs(WritePage(pool, p, page), q) == Refs(pool, q)
  {
  }

  /** The frame allocator together with the `Arc` counts and the memory of its frames. */
  class FrameTable {
    const allocator: StackFrameAllocator
    var refs: map<Ppn, nat>
    var mem: map<Ppn, Page>

    constructor (allocator: StackFrameAllocator, mem: map<Ppn, Page>)
      requires allocator.Valid() && allocator.current == allocator.base > 0 && allocator.recycled == []
      ensures this.allocator == allocator && refs == map[] && PoolOk(Value())
    {
      this.allocator, this.refs, this.mem := allocator, map[], mem;
    }

    ghost function Value(): (pool: Pool)
      reads this, allocator
    {
      Pool(allocator.base, allocator.current, allocator.end, allocator.recycled, refs, mem)
    }

    /** `frame_alloc` and `Arc::new`. */
    method Alloc() returns (r: Option<Ppn>)
      requires PoolOk(Value())
      modifies this, allocator
      ensures r.None? <==> Exhausted(old(Value()))
      ensures r.None? ==> Value() == old(Value())
      ensures r.Some? ==> Value() == AllocFrame(old(Value())) && r.value == NextFrame(old(Value()))
    {
      r := allocator.Alloc();
      if r.Some? {
        refs := refs[r.value := 1];
        mem := mem[r.value := ZeroPage];
      }
    }

    /** `Arc::clone`. */
    method Clone(p: Ppn)
      modifies this`refs
      ensures Value() == CloneRef(old(Value()), p)
    {
      if p in refs {
        refs := refs[p := refs[p] + 1];
      }
    }

    /** Dropping an `Arc`: the last one calls `frame_dealloc`. */
    method Drop(p: Ppn)
      requires PoolOk(Value()) && p in refs
      modifies this`refs, allocator`recycled
      ensures Value() == DropRef(old(Value()), p)
    {
      DropKeeps(Value(), p);
      if refs[p] == 1 {
        refs := refs - {p};
        allocator.Dealloc(p);
      } else {
        refs := refs[p := refs[p] - 1];
      }
    }

    method CopyPage(dst: Ppn, src: Ppn)
      modifies this`mem
      ensures Value() == WritePage(old(Value()), dst, Contents(old(Value()), src))
    {
      mem := mem[dst := if src in mem then mem[src] else ZeroPage];
    }
  }
}
