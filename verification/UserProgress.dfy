/** When a copy to or from user memory succeeds. */
module UserProgress {
  import opened Blocks
  import opened Frames
  import opened AddressSpaces
  import opened PageTables
  import opened Cow
  import opened UserMem

  /** The process may read, or write, page `v`: its area allows user mode to, and it is mapped or can be. */
  ghost predicate MayUse(s: Space, v: Vpn, writable: bool) {
    var i := Find(s.areas, v);
    i < |s.areas| && s.areas[i].perm.u && (writable ==> s.areas[i].perm.w) && (v in s.pt || s.areas[i].lazy)
  }

  ghost predicate MayUseRange(s: Space, va: nat, end: nat, writable: bool) {
    forall x | va <= x < end :: MayUse(s, PageOf(x), writable)
  }

  /** Page `v` is mapped for it. */
  predicate Ready(s: Space, v: Vpn, writable: bool) {
    v in s.pt && s.pt[v].u && (writable ==> s.pt[v].w)
  }

  // ---------- faults do not change what a process may use ----------

  lemma DemandKeepsUse(s: Space, pool: Pool, v: Vpn, u: Vpn, writable: bool)
    requires SpaceOk(s)
    ensures var r := DemandFault(s, pool, v);
            && (MayUse(r.space, u, writable) <==> MayUse(s, u, writable)) && (Ready(s, u, writable) ==> Ready(r.space, u, writable))
            && r.pool.end == pool.end
  {
    hide Find, FindLazy, PageOk, NextFrame, AllocFrame;
    var i := FindLazy(s.areas, v, 0);
    if DemandFault(s, pool, v).ok {
      FindUnique(s.areas, v, i);
      SetFrameOk(s, i, v, Pte(NextFrame(pool), s.areas[i].perm.w, s.areas[i].perm.u));
      AllocEnd(pool);
    }
  }

  lemma CowKeepsUse(s: Space, pool: Pool, v: Vpn, u: Vpn, writable: bool)
    requires SpaceOk(s)
    ensures var r := CowFault(s, pool, v);
            && (MayUse(r.space, u, writable) <==> MayUse(s, u, writable)) && (Ready(s, u, writable) ==> Ready(r.space, u, writable))
            && r.pool.end == pool.end
  {
    hide Find, PageOk, NextFrame, AllocFrame, Contents, DropRef;
    var i := Find(s.areas, v);
    if i < |s.areas| && s.areas[i].perm.w && v in s.pt && !Exhausted(pool) {
      OwnerOf(s, v);
      SetFrameOk(s, i, v, Pte(NextFrame(pool), true, s.pt[v].u));
      AllocEnd(pool);
      DropEnd(WritePage(AllocFrame(pool), NextFrame(pool), Contents(AllocFrame(pool), s.pt[v].ppn)), s.pt[v].ppn);
    }
  }

  lemma AllocEnd(pool: Pool)
    requires !Exhausted(pool)
    ensures AllocFrame(pool).end == pool.end
  {
  }

  lemma DropEnd(pool: Pool, p: Ppn)
    ensures DropRef(pool, p).end == pool.end
  {
  }

  /** The loop body of `try_resolve_user_cow_writable` or `try_resolve_user_readable`. */
  function ResolveOne(s: Space, pool: Pool, va: nat, writable: bool): (r: Outcome) {
    if writable then ResolvePage(s, pool, va)
    else var d := Materialise(s, pool, va); d.(ok := d.ok && MappedUser(d.space, va))
  }

  function Resolve(s: Space, pool: Pool, va: nat, end: nat, writable: bool): (r: Outcome) {
    if writable then ResolveWritable(s, pool, va, end) else ResolveReadable(s, pool, va, end)
  }

  lemma ResolveStep(s: Space, pool: Pool, va: nat, end: nat, writable: bool)
    ensures Resolve(s, pool, va, end, writable) ==
            if va >= end then Outcome(true, s, pool)
            else var r := ResolveOne(s, pool, va, writable);
                 if r.ok then Resolve(r.space, r.pool, NextVa(va), end, writable) else r
  {
    hide ResolvePage, Materialise, MappedUser;
  }

  lemma ResolveOneOk(w: World, k: nat, va: nat, writable: bool)
    requires WorldOk(w) && k < |w.procs|
    ensures var r := ResolveOne(w.procs[k], w.pool, va, writable); WorldOk(Replace(w, k, r.space, r.pool)) && SpaceOk(w.procs[k])
  {
    hide WorldOk, Abs, ResolvePage, Materialise, SameBytes, SameKinds;
    ProcOk(w, k);
    ResolvePageOk(w, k, va);
    MaterialiseOk(w, k, va);
  }

  lemma ResolveOneKeeps(w: World, k: nat, va: nat, u: Vpn, writable: bool, how: bool)
    requires WorldOk(w) && k < |w.procs|
    ensures var s, r := w.procs[k], ResolveOne(w.procs[k], w.pool, va, how);
            && (MayUse(r.space, u, writable) <==> MayUse(s, u, writable)) && (Ready(s, u, writable) ==> Ready(r.space, u, writable))
            && r.pool.end == w.pool.end
  {
    hide WorldOk, Abs, CowFault, DemandFault, PageOf, MayUse, Ready, SameBytes, SameKinds;
    var s := w.procs[k];
    ProcOk(w, k);
    DemandKeepsUse(s, w.pool, va / PAGE_SIZE, u, writable);
    var d := Materialise(s, w.pool, va);
    MaterialiseOk(w, k, va);
    ProcOk(Replace(w, k, d.space, d.pool), k);
    CowKeepsUse(d.space, d.pool, va / PAGE_SIZE, u, writable);
  }

  // ---------- one page ----------

  /** Resolving a page makes it ready or fails, and where the process may use it fails only when frames ran out. */
  lemma ResolveOneWorks(s: Space, pool: Pool, va: nat, writable: bool)
    requires SpaceOk(s) && va < SPAN
    ensures var r := ResolveOne(s, pool, va, writable);
            if r.ok then Ready(r.space, PageOf(va), writable) else MayUse(s, PageOf(va), writable) ==> Exhausted(r.pool)
  {
    hide Find, FindLazy, Contents, AllocFrame, NextFrame, DropRef, Disjoint;
    var v := PageOf(va);
    assert v == va / PAGE_SIZE;
    assert PageOk(s.areas, s.pt, v);
    var j := FindLazy(s.areas, v, 0);
    if v !in s.pt && MayUse(s, v, writable) {
      assert s.areas[Find(s.areas, v)].lazy;
      FindUnique(s.areas, v, j);
    }
  }

  /** A page that is ready is one the process may use. */
  lemma ReadyMayUse(s: Space, v: Vpn, writable: bool)
    requires SpaceOk(s) && Ready(s, v, writable)
    ensures MayUse(s, v, writable)
  {
    hide Find, SpaceOk;
    OwnerOf(s, v);
  }

  // ---------- the range ----------

  ghost predicate ReadyUpTo(s: Space, ptr: nat, va: nat, writable: bool) {
    forall x | ptr <= x < va :: Ready(s, PageOf(x), writable)
  }

  lemma PageDone(s: Space, ptr: nat, va: nat, writable: bool)
    requires va < SPAN && ReadyUpTo(s, ptr, va, writable) && Ready(s, PageOf(va), writable)
    ensures ReadyUpTo(s, ptr, NextVa(va), writable)
  {
    hide Ready;
    SamePage(s, va, true);
    assert NextVa(va) <= va + (PAGE_SIZE - OffOf(va)) by { NextIsBoundary(va); }
    forall x | ptr <= x < NextVa(va) ensures Ready(s, PageOf(x), writable) {
      if x >= va { assert PageOf(x) == PageOf(va); }
    }
  }

  lemma NextIsBoundary(va: nat)
    requires va < SPAN
    ensures NextVa(va) <= va + (PAGE_SIZE - OffOf(va))
  {
    var q := va / PAGE_SIZE;
    assert va == q * PAGE_SIZE + OffOf(va);
    assert (q + 1) * PAGE_SIZE <= SPAN;
  }

  lemma NextMoves(va: nat)
    ensures NextVa(va) > va
  {
  }

  /** Resolving a range that succeeds ends with every page ready; where the process may use the range it fails only
      with no frames left. */
  lemma {:induction false} ResolveWorks(w: World, k: nat, ptr: nat, va: nat, end: nat, writable: bool)
    requires WorldOk(w) && k < |w.procs| && ptr <= va && end <= SPAN
    requires ReadyUpTo(w.procs[k], ptr, va, writable)
    ensures var r := Resolve(w.procs[k], w.pool, va, end, writable);
            && r.pool.end == w.pool.end
            && if r.ok then ReadyUpTo(r.space, ptr, end, writable)
               else MayUseRange(w.procs[k], va, end, writable) ==> Exhausted(r.pool)
    decreases if va < end then end - va else 0
  {
    hide WorldOk, ResolveOne, Resolve, PageOf, Exhausted, MayUse, Ready, NextVa;
    var s := w.procs[k];
    ResolveStep(s, w.pool, va, end, writable);
    if va < end {
      ResolveOneOk(w, k, va, writable);
      assert MayUseRange(s, va, end, writable) ==> MayUse(s, PageOf(va), writable);
      ResolveOneWorks(s, w.pool, va, writable);
      var r := ResolveOne(s, w.pool, va, writable);
      ResolveOneKeeps(w, k, va, 0, writable, writable);
      if r.ok {
        forall y | ptr <= y < va ensures Ready(r.space, PageOf(y), writable) {
          ResolveOneKeeps(w, k, va, PageOf(y), writable, writable);
        }
        forall y | va <= y < end ensures MayUse(s, PageOf(y), writable) ==> MayUse(r.space, PageOf(y), writable) {
          ResolveOneKeeps(w, k, va, PageOf(y), writable, writable);
        }
        PageDone(r.space, ptr, va, writable);
        NextMoves(va);
        ResolveWorks(Replace(w, k, r.space, r.pool), k, ptr, NextVa(va), end, writable);
      }
    }
  }

  lemma {:induction false} ResolveKeepsUse(w: World, k: nat, va: nat, end: nat, u: Vpn, writable: bool)
    requires WorldOk(w) && k < |w.procs|
    ensures MayUse(Resolve(w.procs[k], w.pool, va, end, writable).space, u, writable) <==> MayUse(w.procs[k], u, writable)
    decreases if va < end then end - va else 0
  {
    hide WorldOk, ResolveOne, Resolve, MayUse, Ready, NextVa;
    ResolveStep(w.procs[k], w.pool, va, end, writable);
    if va < end {
      ResolveOneOk(w, k, va, writable);
      ResolveOneKeeps(w, k, va, u, writable, writable);
      var r := ResolveOne(w.procs[k], w.pool, va, writable);
      NextMoves(va);
      if r.ok { ResolveKeepsUse(Replace(w, k, r.space, r.pool), k, NextVa(va), end, u, writable); }
    }
  }

  /** What the two `try_resolve` calls promise: they succeed only where the process may use every byte of the range,
      leaving every page usable, and fail there only when the frames ran out. */
  lemma TryResolveWhere(w: World, k: nat, ptr: nat, len: nat, writable: bool)
    requires WorldOk(w) && k < |w.procs| && ptr + len <= SPAN
    ensures var r := TryResolve(w.procs[k], w.pool, ptr, len, writable);
            && (r.ok ==> MayUseRange(w.procs[k], ptr, ptr + len, writable) && ReadyUpTo(r.space, ptr, ptr + len, writable))
            && (MayUseRange(w.procs[k], ptr, ptr + len, writable) && !r.ok ==> Exhausted(r.pool))
  {
    hide WorldOk, Abs, PageOf, MayUse, Resolve, ResolveWritable, ResolveReadable, Ready, Exhausted, SameKinds, SameBytes;
    var s, end := w.procs[k], ptr + len;
    ResolveIs(s, w.pool, ptr, end, writable);
    var r := Resolve(s, w.pool, ptr, end, writable);
    ResolveWorks(w, k, ptr, ptr, end, writable);
    if r.ok {
      ResolveOk(w, k, ptr, end, writable);
      ProcOk(Replace(w, k, r.space, r.pool), k);
      forall y | ptr <= y < end ensures MayUse(s, PageOf(y), writable) {
        ReadyMayUse(r.space, PageOf(y), writable);
        ResolveKeepsUse(w, k, ptr, end, PageOf(y), writable);
      }
    }
  }

  lemma HeldBelowEnd(w: World, k: nat, v: Vpn)
    requires WorldOk(w) && k < |w.procs| && v in w.procs[k].pt
    ensures w.procs[k].pt[v].ppn < w.pool.end
  {
    Held(w, k, v);
  }

  /** A range can be accessed, after faults if need be, only if the process may use every byte of it, and then unless
      the frames ran out. */
  lemma PreparedWhere(w: World, k: nat, ptr: nat, len: nat, writable: bool)
    requires WorldOk(w) && k < |w.procs| && w.pool.end <= MAX_USER_PPN && ptr + len <= SPAN
    ensures var r := Prepared(w.procs[k], w.pool, ptr, len, writable);
            && (r.ok ==> MayUseRange(w.procs[k], ptr, ptr + len, writable))
            && (MayUseRange(w.procs[k], ptr, ptr + len, writable) && !r.ok ==> Exhausted(r.pool))
  {
    hide WorldOk, Abs, PageOf, MayUse, Resolve, ResolveWritable, ResolveReadable, Exhausted, SameKinds, SameBytes;
    var s, end := w.procs[k], ptr + len;
    var d := Prepared(s, w.pool, ptr, len, writable);
    PreparedOk(w, k, ptr, len, writable);
    ProcOk(Replace(w, k, d.space, d.pool), k);
    var r := Resolve(s, w.pool, ptr, end, writable);
    ResolveIs(s, w.pool, ptr, end, writable);
    if d.ok {
      PreparedAccess(s, w.pool, ptr, len, writable);
      forall y | ptr <= y < end ensures MayUse(s, PageOf(y), writable) {
        assert UserPage(d.space, y, writable);
        ReadyMayUse(d.space, PageOf(y), writable);
        ResolveKeepsUse(w, k, ptr, end, PageOf(y), writable);
      }
    } else if MayUseRange(s, ptr, end, writable) {
      ResolveWorks(w, k, ptr, ptr, end, writable);
      if r.ok {
        ResolveOk(w, k, ptr, end, writable);
        forall y | ptr <= y < end ensures UserPage(r.space, y, writable) {
          assert Ready(r.space, PageOf(y), writable);
          HeldBelowEnd(Replace(w, k, r.space, r.pool), k, PageOf(y));
        }
      }
    }
  }

  lemma ResolveIs(s: Space, pool: Pool, ptr: nat, end: nat, writable: bool)
    ensures Resolve(s, pool, ptr, end, writable) ==
            if writable then ResolveWritable(s, pool, ptr, end) else ResolveReadable(s, pool, ptr, end)
  {
  }

  /** A copy to user memory never succeeds where the process may not write, and fails where it may only when the
      frames ran out. */
  lemma CopySucceedsWhere(w: World, k: nat, ptr: nat, data: seq<Byte>)
    requires WorldOk(w) && k < |w.procs| && w.pool.end <= MAX_USER_PPN && ptr + |data| <= SPAN
    ensures var r := CopiedTo(w.procs[k], w.pool, ptr, data);
            && (r.ok ==> MayUseRange(w.procs[k], ptr, ptr + |data|, true))
            && (MayUseRange(w.procs[k], ptr, ptr + |data|, true) && !r.ok ==> Exhausted(r.pool))
  {
    hide WorldOk, Prepared, CopyBytes, MayUseRange, Exhausted;
    PreparedWhere(w, k, ptr, |data|, true);
  }

  /** A copy from user memory that resolves missing pages never succeeds where the process may not read, fails where
      it may only when the frames ran out, and returns what was there: zeroes for pages not touched before. */
  lemma ReadSucceedsWhere(w: World, k: nat, ptr: nat, len: nat)
    requires WorldOk(w) && k < |w.procs| && w.pool.end <= MAX_USER_PPN && ptr + len <= SPAN
    ensures var r := Prepared(w.procs[k], w.pool, ptr, len, false);
            && (r.ok ==> MayUseRange(w.procs[k], ptr, ptr + len, false))
            && (MayUseRange(w.procs[k], ptr, ptr + len, false) && !r.ok ==> Exhausted(r.pool))
            && ReadBytes(r.space, r.pool, ptr, len) == ReadBytes(w.procs[k], w.pool, ptr, len)
  {
    hide WorldOk, Abs, Prepared, MayUseRange, Exhausted, PageOf, OffOf, Contents;
    PreparedWhere(w, k, ptr, len, false);
    PreparedOk(w, k, ptr, len, false);
    var s, r := w.procs[k], Prepared(w.procs[k], w.pool, ptr, len, false);
    var x := Replace(w, k, r.space, r.pool);
    forall va ensures ByteAt(r.space, r.pool, va) == ByteAt(s, w.pool, va) {
      assert PageBytes(x.procs[k], x.pool, PageOf(va)) == PageBytes(w.procs[k], w.pool, PageOf(va));
    }
  }
}
