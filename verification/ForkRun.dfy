/** `from_existed_user`: the loops that clone an address space. */
module ForkRuns {
  import opened Collections
  import opened Frames
  import opened AddressSpaces
  import opened AreaLists
  import opened Forks
  import opened MemorySets

  /** The body of the page loops. `frames` are the frames of the child's area. */
  method ForkOne(parent: MemorySet, child: MemorySet, a: MapArea, frames: map<Vpn, Ppn>, v: Vpn, ft: FrameTable)
    returns (frames': map<Vpn, Ppn>, panicked: bool)
    requires parent != child && PoolOk(ft.Value())
    modifies parent`pageTable, child`pageTable, ft, ft.allocator
    ensures ForkState(parent.pageTable, child.pageTable, frames', ft.Value(), panicked) ==
            ForkPage(ForkState(old(parent.pageTable), old(child.pageTable), frames, old(ft.Value()), false), a, v)
    ensures PoolOk(ft.Value())
  {
    hide PoolOk, AllocFrame, NextFrame, Contents;
    frames', panicked := frames, false;
    if v !in parent.pageTable { return; }
    var e := parent.pageTable[v];
    var shared, writable := a.kind.Shared?, a.perm.w && a.kind.Private?;
    if v in a.frames {
      var frame := a.frames[v];
      CloneAny(ft.Value(), frame);
      ft.Clone(frame);
      frames' := frames[v := frame];
      if shared {
        if a.perm.w && !e.w {
          parent.pageTable := parent.pageTable[v := e.(w := true)];
        }
        child.pageTable := child.pageTable[v := Pte(frame, a.perm.w, e.u)];
        return;
      }
      if writable && e.w {
        parent.pageTable := parent.pageTable[v := e.(w := false)];
      }
      child.pageTable := child.pageTable[v := Pte(frame, if writable then false else e.w, e.u)];
    } else {
      ghost var pool := ft.Value();
      var frame := ft.Alloc();
      if frame.None? {
        panicked := true;
        return;
      }
      AllocFresh(pool);
      ft.CopyPage(frame.value, e.ppn);
      WriteKeeps(AllocFrame(pool), frame.value, Contents(AllocFrame(pool), e.ppn));
      if writable {
        parent.pageTable := parent.pageTable[v := e.(w := false)];
      }
      child.pageTable := child.pageTable[v := Pte(frame.value, if writable then false else e.w, e.u)];
      frames' := frames[v := frame.value];
    }
  }

  lemma CloneAny(pool: Pool, p: Ppn)
    requires PoolOk(pool)
    ensures PoolOk(CloneRef(pool, p))
  {
  }

  /** The keys of `data_frames`, in the order of iteration. */
  method KeysOf(m: map<Vpn, Ppn>) returns (keys: seq<Vpn>)
    ensures Enumerates(keys, m.Keys)
  {
    keys := [];
    var rest := m.Keys;
    while rest != {}
      invariant rest <= m.Keys && Distinct(keys) && Elems(keys) == m.Keys - rest
      decreases rest
    {
      var v :| v in rest;
      ElemsAppend(keys, v);
      keys := keys + [v];
      rest := rest - {v};
    }
  }

  /** The full scan of area `a`. */
  method ScanArea(parent: MemorySet, child: MemorySet, a: MapArea, ft: FrameTable)
    returns (frames: map<Vpn, Ppn>, panicked: bool)
    requires parent != child && PoolOk(ft.Value())
    modifies parent`pageTable, child`pageTable, ft, ft.allocator
    ensures ForkState(parent.pageTable, child.pageTable, frames, ft.Value(), panicked) ==
            ScanAll(ForkState(old(parent.pageTable), old(child.pageTable), map[], old(ft.Value()), false), a, a.start, a.end)
    ensures PoolOk(ft.Value())
  {
    hide PoolOk, ForkPage;
    ghost var st0 := ForkState(parent.pageTable, child.pageTable, map[], ft.Value(), false);
    frames, panicked := map[], false;
    var v := a.start;
    while v < a.end
      invariant PoolOk(ft.Value()) && !panicked
      invariant ScanAll(ForkState(parent.pageTable, child.pageTable, frames, ft.Value(), false), a, v, a.end) ==
                ScanAll(st0, a, a.start, a.end)
      decreases a.end - v
    {
      frames, panicked := ForkOne(parent, child, a, frames, v, ft);
      v := v + 1;
      if panicked {
        PanicStops(ForkState(parent.pageTable, child.pageTable, frames, ft.Value(), true), a, v, a.end);
        return;
      }
    }
  }

  lemma {:induction false} PanicStops(st: ForkState, a: MapArea, lo: Vpn, hi: Vpn)
    requires st.panicked
    ensures ScanAll(st, a, lo, hi) == st
    decreases hi - lo
  {
    if lo < hi { PanicStops(st, a, lo + 1, hi); }
  }

  /** The sparse scan of area `a`. */
  method ScanFrames(parent: MemorySet, child: MemorySet, a: MapArea, keys: seq<Vpn>, ft: FrameTable)
    returns (frames: map<Vpn, Ppn>)
    requires parent != child && PoolOk(ft.Value())
    requires forall k | 0 <= k < |keys| :: keys[k] in a.frames
    modifies parent`pageTable, child`pageTable, ft, ft.allocator
    ensures ForkState(parent.pageTable, child.pageTable, frames, ft.Value(), false) ==
            ScanTracked(ForkState(old(parent.pageTable), old(child.pageTable), map[], old(ft.Value()), false), a, keys)
    ensures PoolOk(ft.Value())
  {
    hide PoolOk;
    ghost var st0 := ForkState(parent.pageTable, child.pageTable, map[], ft.Value(), false);
    frames := map[];
    var k := 0;
    assert keys[0..] == keys;
    while k < |keys|
      invariant 0 <= k <= |keys| && PoolOk(ft.Value())
      invariant ScanTracked(ForkState(parent.pageTable, child.pageTable, frames, ft.Value(), false), a, keys[k..]) ==
                ScanTracked(st0, a, keys)
    {
      assert keys[k..][0] == keys[k] && keys[k..][1..] == keys[k + 1..];
      var panicked;
      frames, panicked := ForkOne(parent, child, a, frames, keys[k], ft);
      k := k + 1;
    }
  }

  /** One area: small ones are scanned page by page, large ones from their frames; the result is the same. */
  method CloneArea(parent: MemorySet, child: MemorySet, i: nat, ghost s: Space, ghost pool: Pool, ft: FrameTable)
    returns (a: MapArea)
    requires parent != child && SpaceOk(s) && HasFrames(s, pool) && i < |s.areas| && parent.areas == s.areas
    requires PoolOk(ft.Value()) && Known(s, DoneUpTo(s, i)) && Known(s, DoneUpTo(s, i + 1))
    requires ForkState(parent.pageTable, child.pageTable, map[], ft.Value(), false) == Closed(s, pool, map[], DoneUpTo(s, i))
    modifies parent`pageTable, child`pageTable, ft, ft.allocator
    ensures a == s.areas[i] && PoolOk(ft.Value())
    ensures ForkState(parent.pageTable, child.pageTable, a.frames, ft.Value(), false) ==
            Closed(s, pool, a.frames, DoneUpTo(s, i + 1))
  {
    hide PoolOk, SpaceOk, ForkPage, Closed, HasFrames, DoneUpTo;
    var src := parent.areas[i];
    ghost var done := DoneUpTo(s, i);
    DoneOneMore(s, i);
    AreaStart(s, i);
    var frames;
    if src.end - src.start <= FULL_VPN_SCAN_LIMIT {
      ScanAllCloses(s, pool, done, i, src.start);
      var panicked;
      frames, panicked := ScanArea(parent, child, src, ft);
    } else {
      var keys := KeysOf(src.frames);
      forall k | 0 <= k < |keys| ensures keys[k] in src.frames && keys[k] !in done {
        assert keys[k] in Elems(keys);
      }
      ScanTrackedCloses(s, pool, map[], done, i, keys);
      frames := ScanFrames(parent, child, src, keys, ft);
    }
    ClosedFields(s, pool, src.frames, DoneUpTo(s, i + 1));
    a := src.(frames := frames);
  }

  lemma AreaStart(s: Space, i: nat)
    requires SpaceOk(s) && i < |s.areas|
    ensures s.areas[i].start <= s.areas[i].end && Restrict(s.areas[i].frames, s.areas[i].start) == map[]
    ensures forall v | v in s.areas[i].frames :: v >= s.areas[i].start
  {
    assert AreaOk(s.areas[i]);
  }

  lemma ClosedFields(s: Space, pool: Pool, frames: map<Vpn, Ppn>, done: set<Vpn>)
    requires Known(s, done)
    ensures Closed(s, pool, frames, done).frames == frames && !Closed(s, pool, frames, done).panicked
  {
  }

  /** `from_existed_user`: the child, the parent's write protection and the reference counts are the closed form. */
  method FromExistedUser(parent: MemorySet, ft: FrameTable) returns (child: MemorySet)
    requires parent.Consistent(ft)
    modifies parent`pageTable, ft, ft.allocator
    ensures fresh(child) && child.Value() == ForkedChild(old(parent.Value()))
    ensures parent.Value() == ForkedParent(old(parent.Value()))
    ensures ft.Value() == ForkedPool(old(parent.Value()), old(ft.Value()))
    ensures parent.Consistent(ft) && child.Consistent(ft)
    ensures forall p :: Refs(ft.Value(), p) >= Count(parent.pageTable, p) + Count(child.pageTable, p)
  {
    hide PoolOk, SpaceOk, HasFrames, DoneUpTo, ParentMap, ChildMap, Bumped, Known, Count;
    ghost var s, pool := parent.Value(), ft.Value();
    child := new MemorySet();
    ForkOk(s);
    BackedHasFrames(s, pool);
    AllKnown(s, 0);
    NothingDone(s, pool);
    var i := 0;
    while i < |parent.areas|
      invariant i <= |s.areas| && parent.areas == s.areas && child.areas == s.areas[..i] && PoolOk(ft.Value())
      invariant Known(s, DoneUpTo(s, i))
      invariant ForkState(parent.pageTable, child.pageTable, map[], ft.Value(), false) == Closed(s, pool, map[], DoneUpTo(s, i))
    {
      AllKnown(s, i);
      AllKnown(s, i + 1);
      var a := CloneArea(parent, child, i, s, pool, ft);
      child.areas := child.areas + [a];
      i := i + 1;
    }
    AllKnown(s, i);
    ForkBacked(s, pool);
  }

  /** Every page of parent and child has its own reference. */
  lemma ForkBacked(s: Space, pool: Pool)
    requires SpaceOk(s) && Backed(pool, s.pt)
    ensures forall p :: Refs(ForkedPool(s, pool), p) >= Count(ForkedParent(s).pt, p) + Count(ForkedChild(s).pt, p)
  {
    hide SpaceOk, Count, ForkedParent, ForkedChild, ForkedPool;
    ForkOk(s);
    BackedHasFrames(s, pool);
    forall p ensures Refs(ForkedPool(s, pool), p) >= Count(ForkedParent(s).pt, p) + Count(ForkedChild(s).pt, p) {
      ForkedRefs(s, pool, p);
      SameFramesSameCount(ForkedParent(s).pt, s.pt, p);
      SameFramesSameCount(ForkedChild(s).pt, s.pt, p);
    }
  }

  lemma NothingDone(s: Space, pool: Pool)
    requires Known(s, DoneUpTo(s, 0))
    ensures Closed(s, pool, map[], DoneUpTo(s, 0)) == ForkState(s.pt, map[], map[], pool, false)
  {
    hide Find;
    assert DoneUpTo(s, 0) == {};
    assert ParentMap(s, {}) == s.pt;
    assert ChildMap(s, {}) == map[];
    assert Bumped(s, pool, {}).refs == pool.refs by {
      forall p | p in pool.refs ensures Bumped(s, pool, {}).refs[p] == pool.refs[p] {
        assert {} * Mappings(s.pt, p) == {};
      }
    }
  }

  lemma BackedHasFrames(s: Space, pool: Pool)
    requires Backed(pool, s.pt)
    ensures HasFrames(s, pool)
  {
    forall v | v in s.pt ensures s.pt[v].ppn in pool.refs { MemorySet.MappedIsLive(pool, s.pt, v); }
  }
}
