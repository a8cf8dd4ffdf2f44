/** What `mprotect`, `munmap`, `mmap` and shared mappings do to the isolation of processes. */
module Isolation {
  import opened Collections
  import opened Frames
  import opened AddressSpaces
  import opened AreaLists
  import opened Forks
  import opened Cow

  // ---------- address spaces that only lose or re-flag pages ----------

  /** `t` keeps the kind of every page it maps, and maps it to the same frame as `s`. */
  ghost predicate SameFrames(s: Space, t: Space) {
    forall v | v in t.pt :: v in s.pt && t.pt[v].ppn == s.pt[v].ppn && IsPrivate(t, v) == IsPrivate(s, v)
  }

  /** The private pages of process `k` that can be written are the only pages that map their frames. */
  ghost predicate SoleIn(w: World, k: nat)
    requires k < |w.procs|
  {
    forall v, l: nat, u | Aliased(w, k, v, l, u) && IsPrivate(w.procs[k], v) :: !w.procs[k].pt[v].w
  }

  lemma ShrinkCounted(w: World, k: nat, t: Space, pool: Pool)
    requires Counted(w) && k < |w.procs| && Ledger(w.pool, w.procs[k].pt, pool, t.pt)
    ensures Counted(Replace(w, k, t, pool))
  {
    hide Count, Total;
    CountedUpdate(w, k, t, pool);
  }

  /** Such a change keeps the invariant exactly when the writable private pages it leaves map their frames alone. */
  lemma ShrinkExactly(w: World, k: nat, t: Space, pool: Pool)
    requires WorldOk(w) && k < |w.procs| && SpaceOk(t) && PoolOk(pool)
    requires SameFrames(w.procs[k], t) && Ledger(w.pool, w.procs[k].pt, pool, t.pt)
    ensures WorldOk(Replace(w, k, t, pool)) <==> SoleIn(Replace(w, k, t, pool), k)
  {
    hide Find, PoolOk, Count, Total, SpaceOk, Ledger, Counted, Unmixed;
    var x := Replace(w, k, t, pool);
    ShrinkCounted(w, k, t, pool);
    ShrinkUnmixed(w, k, t, pool);
    if SoleIn(x, k) {
      forall a: nat, u, b: nat, v | Aliased(x, a, u, b, v) && IsPrivate(x.procs[a], u) ensures !x.procs[a].pt[u].w {
        if a != k { assert Aliased(w, a, u, b, v); }
      }
    }
  }

  lemma ShrinkUnmixed(w: World, k: nat, t: Space, pool: Pool)
    requires Unmixed(w) && k < |w.procs| && SameFrames(w.procs[k], t)
    ensures Unmixed(Replace(w, k, t, pool))
  {
    hide Find;
    var x := Replace(w, k, t, pool);
    forall a, u, b, v | 0 <= a < |x.procs| && 0 <= b < |x.procs| && u in x.procs[a].pt && v in x.procs[b].pt
                        && x.procs[a].pt[u].ppn == x.procs[b].pt[v].ppn
      ensures IsPrivate(x.procs[a], u) == IsPrivate(x.procs[b], v)
    {
      assert u in w.procs[a].pt && w.procs[a].pt[u].ppn == x.procs[a].pt[u].ppn;
      assert v in w.procs[b].pt && w.procs[b].pt[v].ppn == x.procs[b].pt[v].ppn;
      assert IsPrivate(x.procs[a], u) == IsPrivate(w.procs[a], u);
      assert IsPrivate(x.procs[b], v) == IsPrivate(w.procs[b], v);
    }
  }

  // ---------- mprotect ----------

  /** Some private page of the range maps a frame that another page, of this or any process, maps too. */
  ghost predicate CowPending(w: World, k: nat, lo: Vpn, hi: Vpn) {
    exists v, l: nat, u :: lo <= v < hi && Aliased(w, k, v, l, u) && IsPrivate(w.procs[k], v)
  }

  lemma ProtectKind(s: Space, t: Space, lo: Vpn, hi: Vpn, perm: Perm, v: Vpn)
    requires AreaAt(t.areas, v) == ProtectedAt(s.areas, lo, hi, perm, v)
    ensures IsPrivate(t, v) == IsPrivate(s, v)
  {
    hide Find;
  }

  lemma ProtectFrames(w: World, k: nat, t: Space, lo: Vpn, hi: Vpn, perm: Perm)
    requires k < |w.procs| && IsProtected(w.procs[k], t, lo, hi, perm)
    ensures SameFrames(w.procs[k], t)
    ensures forall v, l: nat, u :: Aliased(Replace(w, k, t, w.pool), k, v, l, u) <==> Aliased(w, k, v, l, u)
  {
    hide Find, SpaceOk, AreaAt, ProtectedAt;
    forall v | v in t.pt ensures IsPrivate(t, v) == IsPrivate(w.procs[k], v) { ProtectKind(w.procs[k], t, lo, hi, perm, v); }
  }

  /** `change_protection` keeps the invariant exactly when it does not grant W to a private page whose frame another
      page maps. */
  lemma ProtectKeepsInvariantExactly(w: World, k: nat, t: Space, lo: Vpn, hi: Vpn, perm: Perm)
    requires WorldOk(w) && k < |w.procs| && IsProtected(w.procs[k], t, lo, hi, perm)
    ensures WorldOk(Replace(w, k, t, w.pool)) <==> !(perm.w && CowPending(w, k, lo, hi))
  {
    hide Find, PoolOk, Count, SpaceOk, Ledger, Counted, Unmixed, AreaAt, ProtectedAt;
    var s, x := w.procs[k], Replace(w, k, t, w.pool);
    ProtectFrames(w, k, t, lo, hi, perm);
    ReflagLedger(w.pool, s.pt, lo, hi, perm);
    ShrinkExactly(w, k, t, w.pool);
    if perm.w && CowPending(w, k, lo, hi) {
      var v, l: nat, u :| lo <= v < hi && Aliased(w, k, v, l, u) && IsPrivate(s, v);
      PendingWrite(w, k, t, lo, hi, perm, v, l, u);
    } else {
      forall v, l: nat, u | Aliased(x, k, v, l, u) && IsPrivate(t, v) ensures !t.pt[v].w {
        KeptFlags(w, k, t, lo, hi, perm, v, l, u);
      }
    }
  }

  lemma PendingWrite(w: World, k: nat, t: Space, lo: Vpn, hi: Vpn, perm: Perm, v: Vpn, l: nat, u: Vpn)
    requires k < |w.procs| && IsProtected(w.procs[k], t, lo, hi, perm) && perm.w && lo <= v < hi
    requires Aliased(w, k, v, l, u) && IsPrivate(w.procs[k], v) && SameFrames(w.procs[k], t)
    ensures !SoleIn(Replace(w, k, t, w.pool), k)
  {
    hide Find, SpaceOk, AreaAt, ProtectedAt;
    assert Aliased(Replace(w, k, t, w.pool), k, v, l, u) && IsPrivate(t, v);
  }

  lemma KeptFlags(w: World, k: nat, t: Space, lo: Vpn, hi: Vpn, perm: Perm, v: Vpn, l: nat, u: Vpn)
    requires SoleWriters(w) && k < |w.procs| && IsProtected(w.procs[k], t, lo, hi, perm)
    requires !(perm.w && CowPending(w, k, lo, hi)) && SameFrames(w.procs[k], t)
    requires Aliased(w, k, v, l, u) && v in t.pt && IsPrivate(t, v)
    ensures !t.pt[v].w
  {
    hide Find, SpaceOk, AreaAt, ProtectedAt;
    assert IsPrivate(w.procs[k], v) && !w.procs[k].pt[v].w;
  }

  lemma ReflagLedger(pool: Pool, pt: PageMap, lo: Vpn, hi: Vpn, perm: Perm)
    ensures Ledger(pool, pt, pool, ReflagRange(pt, lo, hi, perm))
  {
    hide Count, Refs;
    var pt' := ReflagRange(pt, lo, hi, perm);
    forall p ensures Count(pt', p) == Count(pt, p) { SameFramesSameCount(pt', pt, p); }
  }

  /** A user store of process `k` has, on what the processes see, the effect of the eager store. */
  ghost predicate StoreIsEager(w: World, k: nat, v: Vpn, off: nat, b: int)
    requires k < |w.procs| && off < PAGE_SIZE && 0 <= b < 256
  {
    var r := UserStore(w.procs[k], w.pool, v, off, b);
    Abs(Replace(w, k, r.space, r.pool)) == if r.ok then Abs(w)[k := EagerStore(Abs(w)[k], v, off, b)] else Abs(w)
  }

  ghost predicate StoresAreEager(w: World, k: nat, lo: Vpn, hi: Vpn)
    requires k < |w.procs|
  {
    forall v, off: nat, b | lo <= v < hi && off < PAGE_SIZE && 0 <= b < 256 :: StoreIsEager(w, k, v, off, b)
  }

  /** After `change_protection` every store of the process into the range is the eager store, on what all processes
      see, exactly when it does not grant W to user mode on a private page whose frame another page maps. */
  lemma ProtectKeepsIsolationExactly(w: World, k: nat, t: Space, lo: Vpn, hi: Vpn, perm: Perm)
    requires WorldOk(w) && k < |w.procs| && IsProtected(w.procs[k], t, lo, hi, perm)
    ensures StoresAreEager(Replace(w, k, t, w.pool), k, lo, hi) <==> !(perm.w && perm.u && CowPending(w, k, lo, hi))
  {
    hide WorldOk, Abs, IsProtected, StoreIsEager, Aliased, IsPrivate;
    var x := Replace(w, k, t, w.pool);
    ProtectKeepsInvariantExactly(w, k, t, lo, hi, perm);
    if perm.w && perm.u && CowPending(w, k, lo, hi) {
      var v, l: nat, u :| lo <= v < hi && Aliased(w, k, v, l, u) && IsPrivate(w.procs[k], v);
      var b := OtherByte(w, k, v, l, u);
      ProtectLeaks(w, k, t, lo, hi, perm, v, l, u, 0, b);
    } else {
      forall v, off: nat, b | lo <= v < hi && off < PAGE_SIZE && 0 <= b < 256 ensures StoreIsEager(x, k, v, off, b) {
        if perm.w && !perm.u { NoUserStore(w, k, t, lo, hi, perm, v, off, b); } else { EagerInWorld(x, k, v, off, b); }
      }
    }
  }

  lemma EagerInWorld(w: World, k: nat, v: Vpn, off: nat, b: int)
    requires WorldOk(w) && k < |w.procs| && off < PAGE_SIZE && 0 <= b < 256
    ensures StoreIsEager(w, k, v, off, b)
  {
    hide WorldOk, Abs, UserStore;
    UserStoreOk(w, k, v, off, b);
  }

  /** Without U the hardware refuses the store, and the fault handler changes no view. */
  lemma NoUserStore(w: World, k: nat, t: Space, lo: Vpn, hi: Vpn, perm: Perm, v: Vpn, off: nat, b: int)
    requires WorldOk(w) && k < |w.procs| && IsProtected(w.procs[k], t, lo, hi, perm) && perm.w && !perm.u
    requires lo <= v < hi && off < PAGE_SIZE && 0 <= b < 256
    ensures StoreIsEager(Replace(w, k, t, w.pool), k, v, off, b)
  {
    hide Find, FindLazy, Counted, SoleWriters, Unmixed, PoolOk, SpaceOk, View, AreaAt, ProtectedAt, AllocFrame, NextFrame, StoreByte;
    var x := Replace(w, k, t, w.pool);
    ReflagLedger(w.pool, w.procs[k].pt, lo, hi, perm);
    ShrinkCounted(w, k, t, w.pool);
    DemandViews(x, k, v);
    assert x.procs[k := t] == x.procs;
    if v !in t.pt && DemandFault(t, w.pool, v).ok { NoUserFault(w.procs[k], t, lo, hi, perm, v); }
  }

  lemma NoUserFault(s: Space, t: Space, lo: Vpn, hi: Vpn, perm: Perm, v: Vpn)
    requires IsProtected(s, t, lo, hi, perm) && !perm.u && lo <= v < hi
    requires FindLazy(t.areas, v, 0) < |t.areas|
    ensures !t.areas[FindLazy(t.areas, v, 0)].perm.u
  {
    hide Find, FindLazy, PageOk;
    FindUnique(t.areas, v, FindLazy(t.areas, v, 0));
    assert AreaAt(t.areas, v) == ProtectedAt(s.areas, lo, hi, perm, v);
  }

  lemma OtherByte(w: World, k: nat, v: Vpn, l: nat, u: Vpn) returns (b: int)
    requires Aliased(w, k, v, l, u)
    ensures 0 <= b < 256 && b != Contents(w.pool, w.procs[k].pt[v].ppn)[0]
  {
    b := if Contents(w.pool, w.procs[k].pt[v].ppn)[0] == 0 then 1 else 0;
  }

  /** Where it does, the store shows up at the other page too, in the private memory of whichever process it is of. */
  lemma ProtectLeaks(w: World, k: nat, t: Space, lo: Vpn, hi: Vpn, perm: Perm, v: Vpn, l: nat, u: Vpn, off: nat, b: int)
    requires WorldOk(w) && k < |w.procs| && IsProtected(w.procs[k], t, lo, hi, perm) && perm.w && perm.u
    requires lo <= v < hi && Aliased(w, k, v, l, u) && IsPrivate(w.procs[k], v)
    requires off < PAGE_SIZE && 0 <= b < 256 && b != Contents(w.pool, w.procs[k].pt[v].ppn)[off]
    ensures Writable(t, v)
    ensures var r, x := UserStore(t, w.pool, v, off, b), Replace(w, k, t, w.pool);
            && r.ok && u in View(x.procs[l], w.pool) && u in View(x.procs[l], r.pool)
            && View(x.procs[l], w.pool)[u].content[off] != b && View(x.procs[l], r.pool)[u].content[off] == b
            && !StoreIsEager(x, k, v, off, b)
  {
    hide Find, PoolOk, Count, SpaceOk, Counted, SoleWriters, AreaAt, ProtectedAt, Abs;
    var s, x := w.procs[k], Replace(w, k, t, w.pool);
    var o := x.procs[l];
    ProtectFrames(w, k, t, lo, hi, perm);
    assert IsPrivate(o, u) by { assert IsPrivate(w.procs[l], u) by { assert Unmixed(w); } }
    var pool := StoreByte(t, w.pool, v, off, b);
    assert Present(o, u);
    assert Look(o, pool, u).content[off] == b;
    assert Look(o, w.pool, u).content[off] != b;
    NotEager(x, k, v, off, b, l, u);
  }

  lemma NotEager(x: World, k: nat, v: Vpn, off: nat, b: int, l: nat, u: Vpn)
    requires k < |x.procs| && l < |x.procs| && (l != k || u != v) && off < PAGE_SIZE && 0 <= b < 256
    requires Writable(x.procs[k], v)
    requires var pool := StoreByte(x.procs[k], x.pool, v, off, b);
             && u in View(x.procs[l], x.pool) && u in View(x.procs[l], pool)
             && View(x.procs[l], pool)[u].content[off] != View(x.procs[l], x.pool)[u].content[off]
    ensures !StoreIsEager(x, k, v, off, b)
  {
    hide View, StoreByte;
    var pool := StoreByte(x.procs[k], x.pool, v, off, b);
    assert x.procs[k := x.procs[k]] == x.procs;
    assert Abs(Replace(x, k, x.procs[k], pool))[l] == View(x.procs[l], pool);
  }

  const ReadWrite: Perm := Perm(true, true, false, true)

  /** One anonymous page in process 0, an empty slot 1, and frames to spare. */
  function StartWith(kind: Kind): (w: World) {
    World(Pool(1, 1, 9, [], map[], map[]),
          [Space([MapArea(0, 1, map[], ReadWrite, kind, MmapAnon, true, None)], map[]), EmptySpace], multiset{})
  }

  const Start: World := StartWith(Private)

  lemma StartOk(kind: Kind)
    ensures WorldOk(StartWith(kind))
  {
    hide Count;
    var w := StartWith(kind);
    EmptySpaceOk(w.pool);
    forall v ensures PageOk(w.procs[0].areas, w.procs[0].pt, v) { }
    forall p ensures Total(w.procs, p) == 0 {
      EmptyCount(p);
      assert w.procs[..1] == [w.procs[0]];
      assert Total([], p) == 0;
    }
  }

  /** Process 0 touches its page. */
  lemma Touched() returns (w: World)
    ensures WorldOk(w) && |w.procs| == 2 && CanFork(w, 0, 1) && w.procs[0].pt.Keys == {0} && Contents(w.pool, w.procs[0].pt[0].ppn) == ZeroPage
    ensures |w.procs[0].areas| == 1 && w.procs[0].areas[0] == Start.procs[0].areas[0].(frames := w.procs[0].areas[0].frames)
  {
    hide WorldOk, Abs;
    StartOk(Private);
    StepRefines(Start, DemandAt(0, 0));
    w := Next(Start, DemandAt(0, 0));
    assert DemandFault(Start.procs[0], Start.pool, 0).ok;
  }

  /** `mprotect` with the permissions the area already has. */
  lemma Regrant(s: Space) returns (t: Space)
    requires SpaceOk(s) && |s.areas| == 1 && s.areas[0].start == 0 && s.areas[0].end == 1 && s.areas[0].perm == ReadWrite
    ensures IsProtected(s, t, 0, 1, ReadWrite)
  {
    t := Space(s.areas, ReflagRange(s.pt, 0, 1, ReadWrite));
    forall v ensures AreaAt(t.areas, v) == ProtectedAt(s.areas, 0, 1, ReadWrite, v) && PageOk(t.areas, t.pt, v) {
      assert PageOk(s.areas, s.pt, v);
    }
  }

  /** Touch a page, fork, re-grant W with `mprotect` in the child, store: the parent's private page changes. */
  lemma ProtectCanLeak() returns (w: World, t: Space)
    ensures WorldOk(w) && |w.procs| == 2 && IsProtected(w.procs[1], t, 0, 1, ReadWrite)
    ensures var r := UserStore(t, w.pool, 0, 0, 1); r.ok && View(w.procs[0], r.pool) != View(w.procs[0], w.pool)
  {
    hide Counted, SoleWriters, Unmixed, PoolOk, SpaceOk, View, Abs, UserStore, EagerNext, IsProtected;
    var w1 := Touched();
    var s := w1.procs[0];
    StepRefines(w1, ForkTo(0, 1));
    w := Next(w1, ForkTo(0, 1));
    ForkOk(s);
    t := Regrant(w.procs[1]);
    assert Aliased(w, 1, 0, 0, 0);
    ProtectLeaks(w, 1, t, 0, 1, ReadWrite, 0, 0, 0, 0, 1);
  }

  lemma ProtectLook(s: Space, t: Space, pool: Pool, lo: Vpn, hi: Vpn, perm: Perm, v: Vpn)
    requires IsProtected(s, t, lo, hi, perm)
    ensures Present(t, v) == Present(s, v)
    ensures Present(s, v) ==> Look(t, pool, v) == if lo <= v < hi then Look(s, pool, v).(writable := perm.w && perm.u)
                                                  else Look(s, pool, v)
  {
    hide Find, SpaceOk, Contents;
    assert AreaAt(t.areas, v) == ProtectedAt(s.areas, lo, hi, perm, v);
  }

  lemma ProtectView(s: Space, t: Space, pool: Pool, lo: Vpn, hi: Vpn, perm: Perm)
    requires IsProtected(s, t, lo, hi, perm)
    ensures View(t, pool) == EagerProtect(View(s, pool), lo, hi, perm)
  {
    hide IsProtected, Present, Look;
    forall v { ProtectLook(s, t, pool, lo, hi, perm, v); }
  }

  // ---------- munmap and mmap ----------

  lemma UnmapLook(s: Space, pool: Pool, t: Space, pool': Pool, lo: Vpn, hi: Vpn, v: Vpn)
    requires IsUnmapped(s, pool, t, pool', lo, hi)
    ensures v in t.pt ==> IsPrivate(t, v) == IsPrivate(s, v)
    ensures Present(t, v) <==> Present(s, v) && UnmappedAt(s.areas, lo, hi, v).Some?
    ensures Present(t, v) ==> Look(t, pool', v) == Look(s, pool, v)
  {
    hide Find, SpaceOk, PoolOk, Ledger;
    assert AreaAt(t.areas, v) == UnmappedAt(s.areas, lo, hi, v);
  }

  lemma UnmapView(s: Space, pool: Pool, t: Space, pool': Pool, lo: Vpn, hi: Vpn)
    requires IsUnmapped(s, pool, t, pool', lo, hi)
    ensures SameFrames(s, t) && View(t, pool') == EagerUnmap(s, View(s, pool), lo, hi)
  {
    hide Present, Look, UnmappedAt, Ledger, SpaceOk, PoolOk, AreaAt, IsPrivate;
    forall v { UnmapLook(s, pool, t, pool', lo, hi, v); }
  }

  /** `munmap` keeps the invariant, and takes the unmapped pages out of the view of that process only. */
  lemma UnmapStepOk(w: World, k: nat, t: Space, pool: Pool, lo: Vpn, hi: Vpn)
    requires WorldOk(w) && k < |w.procs| && IsUnmapped(w.procs[k], w.pool, t, pool, lo, hi)
    ensures WorldOk(Replace(w, k, t, pool))
    ensures Abs(Replace(w, k, t, pool)) == Abs(w)[k := EagerUnmap(w.procs[k], Abs(w)[k], lo, hi)]
  {
    hide Find, PoolOk, Count, Total, SpaceOk, Ledger, AreaAt, UnmappedAt, View, EagerUnmap, Unmixed;
    var s := w.procs[k];
    UnmapView(s, w.pool, t, pool, lo, hi);
    var x := Replace(w, k, t, pool);
    forall v, l: nat, u | Aliased(x, k, v, l, u) && IsPrivate(t, v) ensures !t.pt[v].w { assert Aliased(w, k, v, l, u); }
    ShrinkExactly(w, k, t, pool);
    forall l | 0 <= l < |w.procs| && l != k { SameMem(w.procs[l], w.pool, pool); }
  }

  /** Unmapping page 1 of an area of four pages: the process loses page 3 too. */
  lemma UnmapCanDropTail(pool: Pool) returns (s: Space, t: Space)
    requires PoolOk(pool)
    ensures SpaceOk(s) && IsUnmapped(s, pool, t, pool, 1, 2) && 3 in View(s, pool) && 3 !in View(t, pool)
  {
    hide Count, PoolOk, Refs;
    var a := MapArea(0, 4, map[], ReadWrite, Private, MmapAnon, true, None);
    s, t := Space([a], map[]), Space([Trim(a, 0, 1)], map[]);
    forall v ensures PageOk(s.areas, s.pt, v) && PageOk(t.areas, t.pt, v) && AreaAt(t.areas, v) == UnmappedAt(s.areas, 1, 2, v) { }
    LedgerRefl(pool, s.pt);
    assert Present(s, 3) && !Present(t, 3);
  }

  lemma MapView(s: Space, pool: Pool, t: Space, a: MapArea)
    requires SpaceOk(s) && IsMapped(s, t, a)
    ensures forall v: Vpn | In(a, v) :: v !in s.pt
    ensures SameFrames(s, t) && View(t, pool) == EagerMap(View(s, pool), a)
  {
    hide Find, Contents, AreasOk;
    forall v: Vpn | In(a, v) ensures v !in s.pt { FreeHasNone(s.areas, a.start, a.end, v); assert PageOk(s.areas, s.pt, v); }
    forall v: Vpn ensures Present(t, v) == (if In(a, v) then a.kind.Private? else Present(s, v))
                     && (Present(t, v) ==> Look(t, pool, v) == EagerMap(View(s, pool), a)[v])
                     && (v in s.pt ==> IsPrivate(t, v) == IsPrivate(s, v))
    {
      assert AreaAt(t.areas, v) == if In(a, v) then Some(a) else AreaAt(s.areas, v);
      if In(a, v) { FreeHasNone(s.areas, a.start, a.end, v); }
    }
  }

  /** A change of areas that moves no page keeps the invariant. */
  lemma SamePagesOk(w: World, k: nat, t: Space)
    requires WorldOk(w) && k < |w.procs| && SpaceOk(t) && t.pt == w.procs[k].pt && SameFrames(w.procs[k], t)
    ensures WorldOk(Replace(w, k, t, w.pool))
  {
    hide Find, PoolOk, Count, Total, SpaceOk, Ledger, Unmixed, Counted;
    LedgerRefl(w.pool, t.pt);
    var x := Replace(w, k, t, w.pool);
    forall v, l: nat, u | Aliased(x, k, v, l, u) && IsPrivate(t, v) ensures !t.pt[v].w { assert Aliased(w, k, v, l, u); }
    ShrinkExactly(w, k, t, w.pool);
  }

  /** `mmap` keeps the invariant, and adds zeroed private pages to the view of that process only. */
  lemma MapStepOk(w: World, k: nat, t: Space, a: MapArea)
    requires WorldOk(w) && k < |w.procs| && IsMapped(w.procs[k], t, a)
    ensures WorldOk(Replace(w, k, t, w.pool))
    ensures Abs(Replace(w, k, t, w.pool)) == Abs(w)[k := EagerMap(Abs(w)[k], a)]
  {
    hide PoolOk, SpaceOk, AreaAt, View, EagerMap, Unmixed, Counted, SoleWriters, SameFrames;
    MapView(w.procs[k], w.pool, t, a);
    SamePagesOk(w, k, t);
  }

  /** What `mmap` of anonymous memory does to the view: without MAP_SHARED exactly the pages of the range appear,
      zeroed, and writable if the permission says so; with it no private page does. */
  lemma AnonMapStepOk(w: World, k: nat, t: Space, lo: Vpn, hi: Vpn, perm: Perm, meta: MmapMeta)
    requires WorldOk(w) && k < |w.procs| && IsMapped(w.procs[k], t, NewArea(lo, hi, perm, meta))
    ensures var x := Replace(w, k, t, w.pool);
            && WorldOk(x) && (forall l | 0 <= l < |w.procs| && l != k :: Abs(x)[l] == Abs(w)[l])
            && (forall v: Vpn :: v in Abs(x)[k] <==> v in Abs(w)[k] || (!meta.shared && lo <= v < hi))
            && (forall v: Vpn | v in Abs(x)[k] ::
                  if !meta.shared && lo <= v < hi then
                    (forall o | 0 <= o < PAGE_SIZE :: Abs(x)[k][v].content[o] == 0) && (Abs(x)[k][v].writable <==> perm.w && perm.u)
                  else v in Abs(w)[k] && Abs(x)[k][v] == Abs(w)[k][v])
  {
    hide WorldOk, View, IsMapped;
    MapStepOk(w, k, t, NewArea(lo, hi, perm, meta));
  }

  /** What making the heap does to the view: its pages appear, zeroed and writable. */
  lemma NewHeapStepOk(w: World, k: nat, t: Space, lo: Vpn, hi: Vpn)
    requires WorldOk(w) && k < |w.procs| && IsMapped(w.procs[k], t, NewHeap(lo, hi))
    ensures var r := DemandAll(t, w.pool, lo, hi); var x := Replace(w, k, r.space, r.pool);
            && WorldOk(x) && (forall l | 0 <= l < |w.procs| && l != k :: Abs(x)[l] == Abs(w)[l])
            && (forall v: Vpn :: v in Abs(x)[k] <==> v in Abs(w)[k] || lo <= v < hi)
            && (forall v: Vpn | v in Abs(x)[k] ::
                  if lo <= v < hi then (forall o | 0 <= o < PAGE_SIZE :: Abs(x)[k][v].content[o] == 0) && Abs(x)[k][v].writable
                  else v in Abs(w)[k] && Abs(x)[k][v] == Abs(w)[k][v])
  {
    hide WorldOk, View, IsMapped, DemandAll;
    PushStepOk(w, k, t, NewHeap(lo, hi));
  }

  // ---------- the heap ----------

  /** The pages by which area `a` grows when it is extended to `end`. */
  function Growth(a: MapArea, end: Vpn): (r: MapArea) {
    a.(start := a.end, end := end, frames := map[])
  }

  lemma ExtendPage(s: Space, t: Space, i: nat, end: Vpn, v: Vpn)
    requires SpaceOk(s) && IsExtended(s, t, i, end)
    ensures var g := Growth(s.areas[i], end);
            if In(g, v) then v !in s.pt && Find(t.areas, v) == i && Find(s.areas, v) == |s.areas|
            else Find(t.areas, v) == Find(s.areas, v)
  {
    hide Find, PageOk;
    var j, m := Find(s.areas, v), Find(t.areas, v);
    if In(Growth(s.areas[i], end), v) {
      FindUnique(t.areas, v, i);
      if j < |s.areas| { FindUnique(t.areas, v, j); }
      NoOwner(s, v);
    } else {
      if j < |s.areas| { assert In(t.areas[j], v); FindUnique(t.areas, v, j); }
      if m < |t.areas| { assert In(s.areas[m], v); }
    }
  }

  lemma ExtendLook(s: Space, pool: Pool, t: Space, i: nat, end: Vpn, v: Vpn)
    requires SpaceOk(s) && IsExtended(s, t, i, end)
    ensures var g := Growth(s.areas[i], end);
            && Present(t, v) == (if In(g, v) then g.kind.Private? else Present(s, v))
            && (Present(t, v) ==>
                  Look(t, pool, v) == if In(g, v) then EagerPage(ZeroPage, g.perm.w && g.perm.u) else Look(s, pool, v))
            && (In(g, v) ==> !Present(s, v))
            && (v in s.pt ==> IsPrivate(t, v) == IsPrivate(s, v))
  {
    hide Find, Contents, SpaceOk;
    ExtendPage(s, t, i, end, v);
  }

  lemma ExtendView(s: Space, pool: Pool, t: Space, i: nat, end: Vpn)
    requires SpaceOk(s) && IsExtended(s, t, i, end)
    ensures SameFrames(s, t) && View(t, pool) == EagerMap(View(s, pool), Growth(s.areas[i], end))
  {
    hide Find, Contents, SpaceOk, Present, Look, IsPrivate;
    forall v: Vpn { ExtendLook(s, pool, t, i, end, v); }
  }

  /** Growing a lazy heap keeps the invariant, and adds zeroed pages to the view of that process only. */
  lemma ExtendStepOk(w: World, k: nat, t: Space, i: nat, end: Vpn)
    requires WorldOk(w) && k < |w.procs| && IsExtended(w.procs[k], t, i, end)
    ensures WorldOk(Replace(w, k, t, w.pool))
    ensures Abs(Replace(w, k, t, w.pool)) == Abs(w)[k := EagerMap(Abs(w)[k], Growth(w.procs[k].areas[i], end))]
  {
    hide PoolOk, SpaceOk, View, EagerMap, Unmixed, Counted, SoleWriters, SameFrames;
    ExtendView(w.procs[k], w.pool, t, i, end);
    SamePagesOk(w, k, t);
  }

  lemma CutLook(s: Space, pool: Pool, t: Space, pool': Pool, i: nat, end: Vpn, v: Vpn)
    requires SpaceOk(s) && IsCut(s, pool, t, pool', i, end)
    ensures v in t.pt ==> IsPrivate(t, v) == IsPrivate(s, v)
    ensures Present(t, v) <==> Present(s, v) && !(end <= v < s.areas[i].end)
    ensures Present(t, v) ==> Look(t, pool', v) == Look(s, pool, v)
  {
    hide Find, PoolOk, Ledger, PageOk;
    var j, m := Find(s.areas, v), Find(t.areas, v);
    if end <= v < s.areas[i].end {
      FindUnique(s.areas, v, i);
    } else {
      if j < |s.areas| { assert In(t.areas[j], v); FindUnique(t.areas, v, j); }
      if m < |t.areas| { assert In(s.areas[m], v); }
    }
  }

  /** Shrinking the heap keeps the invariant, and takes the pages past its new end out of the view of that process. */
  lemma CutStepOk(w: World, k: nat, t: Space, pool: Pool, i: nat, end: Vpn)
    requires WorldOk(w) && k < |w.procs| && IsCut(w.procs[k], w.pool, t, pool, i, end)
    ensures WorldOk(Replace(w, k, t, pool))
    ensures Abs(Replace(w, k, t, pool)) == Abs(w)[k := EagerCut(Abs(w)[k], end, w.procs[k].areas[i].end)]
  {
    hide Find, PoolOk, Count, Total, SpaceOk, Ledger, Present, Look, Unmixed, Counted;
    var s, x := w.procs[k], Replace(w, k, t, pool);
    forall v { CutLook(s, w.pool, t, pool, i, end, v); }
    assert View(t, pool) == EagerCut(View(s, w.pool), end, s.areas[i].end);
    forall v, l: nat, u | Aliased(x, k, v, l, u) && IsPrivate(t, v) ensures !t.pt[v].w { assert Aliased(w, k, v, l, u); }
    ShrinkExactly(w, k, t, pool);
    forall l | 0 <= l < |w.procs| && l != k { SameMem(w.procs[l], w.pool, pool); }
  }

  /** Demand faults one after the other change no view. */
  lemma {:induction false} DemandAllOk(w: World, k: nat, lo: Vpn, hi: Vpn)
    requires WorldOk(w) && k < |w.procs|
    ensures var r := DemandAll(w.procs[k], w.pool, lo, hi); var x := Replace(w, k, r.space, r.pool);
            WorldOk(x) && Abs(x) == Abs(w)
    decreases hi - lo
  {
    hide WorldOk, Abs, DemandFault, SameBytes;
    if hi <= lo {
      assert Replace(w, k, w.procs[k], w.pool) == w;
    } else {
      DemandAllOk(w, k, lo, hi - 1);
      var r := DemandAll(w.procs[k], w.pool, lo, hi - 1);
      var x := Replace(w, k, r.space, r.pool);
      DemandFaultOk(x, k, hi - 1);
      var d := DemandFault(r.space, r.pool, hi - 1);
      ReplaceTwice(w, k, r.space, r.pool, d.space, d.pool);
    }
  }

  /** Pushing a lazy area adds zeroed pages to the view of that process only, whether or not frames run out. */
  lemma PushStepOk(w: World, k: nat, t: Space, a: MapArea)
    requires WorldOk(w) && k < |w.procs| && IsMapped(w.procs[k], t, a)
    ensures var r := DemandAll(t, w.pool, a.start, a.end); var x := Replace(w, k, r.space, r.pool);
            WorldOk(x) && Abs(x) == Abs(w)[k := EagerMap(Abs(w)[k], a)]
  {
    hide WorldOk, Abs, EagerMap, DemandAll, IsMapped;
    MapStepOk(w, k, t, a);
    var x := Replace(w, k, t, w.pool);
    DemandAllOk(x, k, a.start, a.end);
    var r := DemandAll(t, w.pool, a.start, a.end);
    ReplaceTwice(w, k, t, w.pool, r.space, r.pool);
  }

  // ---------- the eager machine ----------

  ghost function EagerProtect(e: Eager, lo: Vpn, hi: Vpn, perm: Perm): (r: Eager) {
    imap v | v in e :: if lo <= v < hi then e[v].(writable := perm.w && perm.u) else e[v]
  }

  ghost function EagerUnmap(s: Space, e: Eager, lo: Vpn, hi: Vpn): (r: Eager) {
    imap v | v in e && UnmappedAt(s.areas, lo, hi, v).Some? :: e[v]
  }

  /** The pages of a new private area are zeroes. */
  ghost function EagerMap(e: Eager, a: MapArea): (r: Eager) {
    if a.kind.Shared? then e
    else imap v | v in e || In(a, v) :: if In(a, v) then EagerPage(ZeroPage, a.perm.w && a.perm.u) else e[v]
  }

  ghost function EagerCut(e: Eager, lo: Vpn, hi: Vpn): (r: Eager) {
    imap v | v in e && !(lo <= v < hi) :: e[v]
  }

  // ---------- runs with mmap, brk, munmap and mprotect ----------

  datatype Call =
    | Basic(step: Step)
    | Mmap(proc: nat, area: MapArea, after: Space)
    | Push(proc: nat, area: MapArea, added: Space)
    | GrowHeap(proc: nat, index: nat, end: Vpn, after: Space)
    | ShrinkHeap(proc: nat, index: nat, end: Vpn, after: Space, frames: Pool)
    | Munmap(proc: nat, lo: Vpn, hi: Vpn, after: Space, frames: Pool)
    | Mprotect(proc: nat, lo: Vpn, hi: Vpn, perm: Perm, after: Space)

  ghost predicate CallAllowed(w: World, c: Call) {
    match c
    case Basic(st) => Allowed(w, st)
    case Mmap(k, a, t) => k < |w.procs| && IsMapped(w.procs[k], t, a)
    case Push(k, a, t) => k < |w.procs| && IsMapped(w.procs[k], t, a)
    case GrowHeap(k, i, end, t) => k < |w.procs| && IsExtended(w.procs[k], t, i, end)
    case ShrinkHeap(k, i, end, t, pool) => k < |w.procs| && IsCut(w.procs[k], w.pool, t, pool, i, end)
    case Munmap(k, lo, hi, t, pool) => k < |w.procs| && IsUnmapped(w.procs[k], w.pool, t, pool, lo, hi)
    case Mprotect(k, lo, hi, perm, t) =>
      k < |w.procs| && IsProtected(w.procs[k], t, lo, hi, perm) && !(perm.w && CowPending(w, k, lo, hi))
  }

  ghost function CallNext(w: World, c: Call): (r: World)
    requires WorldOk(w) && CallAllowed(w, c)
  {
    match c
    case Basic(st) => Next(w, st)
    case Mmap(k, _, t) => Replace(w, k, t, w.pool)
    case Push(k, a, t) => var r := DemandAll(t, w.pool, a.start, a.end); Replace(w, k, r.space, r.pool)
    case GrowHeap(k, _, _, t) => Replace(w, k, t, w.pool)
    case ShrinkHeap(k, _, _, t, pool) => Replace(w, k, t, pool)
    case Munmap(k, _, _, t, pool) => Replace(w, k, t, pool)
    case Mprotect(k, _, _, _, t) => Replace(w, k, t, w.pool)
  }

  ghost function EagerCall(w: World, e: seq<Eager>, c: Call): (r: seq<Eager>)
    requires WorldOk(w) && CallAllowed(w, c) && |e| == |w.procs|
  {
    match c
    case Basic(st) => EagerNext(w, e, st)
    case Mmap(k, a, _) => e[k := EagerMap(e[k], a)]
    case Push(k, a, _) => e[k := EagerMap(e[k], a)]
    case GrowHeap(k, i, end, _) => e[k := EagerMap(e[k], Growth(w.procs[k].areas[i], end))]
    case ShrinkHeap(k, i, end, _, _) => e[k := EagerCut(e[k], end, w.procs[k].areas[i].end)]
    case Munmap(k, lo, hi, _, _) => e[k := EagerUnmap(w.procs[k], e[k], lo, hi)]
    case Mprotect(k, lo, hi, perm, _) => e[k := EagerProtect(e[k], lo, hi, perm)]
  }

  lemma CallRefines(w: World, c: Call)
    requires WorldOk(w) && CallAllowed(w, c)
    ensures WorldOk(CallNext(w, c)) && |CallNext(w, c).procs| == |w.procs|
    ensures Abs(CallNext(w, c)) == EagerCall(w, Abs(w), c)
  {
    hide WorldOk, Next, EagerNext, EagerMap, EagerUnmap, EagerProtect, EagerCut, IsMapped, IsUnmapped, IsProtected, DemandAll,
      View, CowPending;
    match c
    case Basic(st) => StepRefines(w, st);
    case Mmap(k, a, t) => MapStepOk(w, k, t, a);
    case Push(k, a, t) => PushStepOk(w, k, t, a);
    case GrowHeap(k, i, end, t) => ExtendStepOk(w, k, t, i, end);
    case ShrinkHeap(k, i, end, t, pool) => CutStepOk(w, k, t, pool, i, end);
    case Munmap(k, lo, hi, t, pool) => UnmapStepOk(w, k, t, pool, lo, hi);
    case Mprotect(k, lo, hi, perm, t) =>
      ProtectKeepsInvariantExactly(w, k, t, lo, hi, perm);
      ProtectView(w.procs[k], t, w.pool, lo, hi, perm);
  }

  ghost predicate IsCallRun(ws: seq<World>, es: seq<seq<Eager>>, calls: seq<Call>) {
    && |ws| == |es| == |calls| + 1 && WorldOk(ws[0]) && es[0] == Abs(ws[0])
    && forall i | 0 <= i < |calls| :: WorldOk(ws[i]) ==>
         && CallAllowed(ws[i], calls[i]) && ws[i + 1] == CallNext(ws[i], calls[i])
         && (|es[i]| == |ws[i].procs| ==> es[i + 1] == EagerCall(ws[i], es[i], calls[i]))
  }

  /** The refinement of eager copying extends to runs that map, unmap and re-protect memory, as long as no
      `mprotect` grants W to a page still shared after fork. */
  lemma {:induction false} CallsRefineEagerCopy(ws: seq<World>, es: seq<seq<Eager>>, calls: seq<Call>, n: nat)
    requires IsCallRun(ws, es, calls) && n < |ws|
    ensures WorldOk(ws[n]) && es[n] == Abs(ws[n])
  {
    hide WorldOk, Abs, CallNext, EagerCall, CallAllowed;
    if n > 0 {
      CallsRefineEagerCopy(ws, es, calls, n - 1);
      assert WorldOk(ws[n - 1]) ==> CallAllowed(ws[n - 1], calls[n - 1]) && ws[n - 1 + 1] == CallNext(ws[n - 1], calls[n - 1]);
      CallRefines(ws[n - 1], calls[n - 1]);
    }
  }

  // ---------- shared mappings across fork ----------

  /** After fork, parent and child map a page to the same frame exactly when it was materialised before the fork. */
  lemma SharedFrameExactly(s: Space, v: Vpn)
    requires SpaceOk(s)
    ensures (v in ForkedParent(s).pt && v in ForkedChild(s).pt && ForkedParent(s).pt[v].ppn == ForkedChild(s).pt[v].ppn)
            <==> v in s.pt
  {
    hide Find, SpaceOk;
    ForkOk(s);
  }

  /** A lazy page that was not: the first accesses of the two processes give them different frames, shared or not. */
  lemma UnmaterialisedDiverges(w: World, p: nat, c: nat, v: Vpn)
    requires WorldOk(w) && CanFork(w, p, c) && v !in w.procs[p].pt
    ensures var x := Next(w, ForkTo(p, c));
            var a := DemandFault(x.procs[p], x.pool, v);
            var b := DemandFault(x.procs[c], a.pool, v);
            a.ok && b.ok ==> a.space.pt[v].ppn != b.space.pt[v].ppn
  {
    hide Find, FindLazy, SpaceOk, Counted, SoleWriters, Unmixed;
    var x := Next(w, ForkTo(p, c));
    StepRefines(w, ForkTo(p, c));
    var a := DemandFault(x.procs[p], x.pool, v);
    if a.ok {
      AllocFresh(x.pool);
      var b := DemandFault(x.procs[c], a.pool, v);
      if b.ok { AllocFresh(a.pool); }
    }
  }

  /** A shared page nobody touched before fork: afterwards both processes get a frame of their own for it. */
  lemma UnmaterialisedCanDiverge() returns (w: World)
    ensures WorldOk(w) && CanFork(w, 0, 1) && |w.procs[0].areas| == 1 && w.procs[0].areas[0].kind.Shared?
    ensures Find(w.procs[0].areas, 0) == 0
    ensures var x := Next(w, ForkTo(0, 1));
            var a := DemandFault(x.procs[0], x.pool, 0);
            var b := DemandFault(x.procs[1], a.pool, 0);
            a.ok && b.ok && a.space.pt[0].ppn != b.space.pt[0].ppn
  {
    hide Counted, SoleWriters, Unmixed, PoolOk, SpaceOk;
    w := StartWith(Shared);
    StartOk(Shared);
    ForkOk(w.procs[0]);
    ForkAreas(w.procs[0]);
    UnmaterialisedDiverges(w, 0, 1, 0);
    var x := Next(w, ForkTo(0, 1));
    assert x.pool.current == 1 && x.pool.recycled == [];
  }

  /** Steps that end or overwrite process `k`. */
  predicate Replaces(st: Step, k: nat) {
    (st.ForkTo? && st.child == k) || (st.Exit? && st.proc == k)
  }

  lemma FaultsKeepShared(s: Space, pool: Pool, v: Vpn, u: Vpn)
    requires SpaceOk(s) && v in s.pt && !IsPrivate(s, v)
    ensures var r := CowFault(s, pool, u).space; v in r.pt && r.pt[v].ppn == s.pt[v].ppn && !IsPrivate(r, v)
    ensures var r := DemandFault(s, pool, u).space; v in r.pt && r.pt[v].ppn == s.pt[v].ppn && !IsPrivate(r, v)
  {
    hide Find, FindLazy, Disjoint, NextFrame, AllocFrame, DropRef, Contents;
    var i, j := Find(s.areas, u), FindLazy(s.areas, u, 0);
    OwnerOf(s, v);
    if i < |s.areas| { FindSameRanges(s.areas, s.areas[i := s.areas[i].(frames := CowFault(s, pool, u).space.areas[i].frames)], v); }
    if j < |s.areas| { FindSameRanges(s.areas, s.areas[j := s.areas[j].(frames := DemandFault(s, pool, u).space.areas[j].frames)], v); }
  }

  /** No step moves a materialised shared page to another frame. */
  lemma StepKeepsShared(w: World, st: Step, k: nat, v: Vpn)
    requires WorldOk(w) && Allowed(w, st) && k < |w.procs| && !Replaces(st, k)
    requires v in w.procs[k].pt && !IsPrivate(w.procs[k], v)
    ensures var s := Next(w, st).procs[k];
            v in s.pt && s.pt[v].ppn == w.procs[k].pt[v].ppn && !IsPrivate(s, v)
  {
    hide Find, FindLazy, CowFault, DemandFault, SpaceOk, Counted, SoleWriters, Unmixed, StoreByte;
    var s := w.procs[k];
    match st
    case ForkTo(p, c) => ForkOk(w.procs[p]);
    case Store(j, u, off, b) => if j == k { FaultsKeepShared(s, w.pool, v, u); }
    case CowAt(j, u) => if j == k { FaultsKeepShared(s, w.pool, v, u); }
    case DemandAt(j, u) => if j == k { FaultsKeepShared(s, w.pool, v, u); }
    case Exit(j, _) =>
  }

  /** Throughout every run after the fork, the two processes keep mapping a materialised shared page to one frame:
      a store of either is read by the other. */
  lemma {:induction false} SharedStaysShared(ws: seq<World>, steps: seq<Step>, k: nat, l: nat, v: Vpn, n: nat)
    requires IsRun(ws, steps) && n < |ws| && k < |ws[0].procs| && l < |ws[0].procs|
    requires forall i | 0 <= i < |steps| :: !Replaces(steps[i], k) && !Replaces(steps[i], l)
    requires v in ws[0].procs[k].pt && v in ws[0].procs[l].pt && ws[0].procs[k].pt[v].ppn == ws[0].procs[l].pt[v].ppn
    requires !IsPrivate(ws[0].procs[k], v) && !IsPrivate(ws[0].procs[l], v)
    ensures WorldOk(ws[n]) && |ws[n].procs| == |ws[0].procs|
    ensures var a, b := ws[n].procs[k], ws[n].procs[l];
            && v in a.pt && v in b.pt && a.pt[v].ppn == b.pt[v].ppn && !IsPrivate(a, v) && !IsPrivate(b, v)
  {
    hide WorldOk, Next, Allowed, IsPrivate;
    if n > 0 {
      SharedStaysShared(ws, steps, k, l, v, n - 1);
      var w, st := ws[n - 1], steps[n - 1];
      assert WorldOk(w) ==> Allowed(w, st) && ws[n - 1 + 1] == Next(w, st);
      StepRefines(w, st);
      StepKeepsShared(w, st, k, v);
      StepKeepsShared(w, st, l, v);
    }
  }
}
