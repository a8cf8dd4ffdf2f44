/** Copy-on-write fork and demand paging, over all processes: indistinguishable from eager copying. */
module Cow {
  import opened Collections
  import opened Frames
  import opened AddressSpaces
  import opened Forks

  /** All address spaces (a slot without a process is empty), the frames, and frame references held outside
      address spaces (SysV segments, other kernel users). */
  datatype World = World(pool: Pool, procs: seq<Space>, ext: multiset<Ppn>)

  const EmptySpace: Space := Space([], map[])

  /** How many pages of all processes map frame `p`. */
  ghost function Total(procs: seq<Space>, p: Ppn): (n: nat) {
    if procs == [] then 0 else Total(procs[..|procs| - 1], p) + Count(procs[|procs| - 1].pt, p)
  }

  lemma {:induction false} TotalUpdate(procs: seq<Space>, k: nat, s: Space, p: Ppn)
    requires k < |procs|
    ensures Total(procs[k := s], p) == Total(procs, p) - Count(procs[k].pt, p) + Count(s.pt, p)
  {
    hide Count;
    var last := |procs| - 1;
    if k == last {
      assert procs[k := s][..last] == procs[..last];
    } else {
      TotalUpdate(procs[..last], k, s, p);
      assert procs[k := s][..last] == procs[..last][k := s];
    }
  }

  lemma {:induction false} TotalAtLeast(procs: seq<Space>, k: nat, l: nat, p: Ppn)
    requires k < |procs| && l < |procs|
    ensures Total(procs, p) >= Count(procs[k].pt, p) + if k == l then 0 else Count(procs[l].pt, p)
  {
    hide Count;
    var last := |procs| - 1;
    if k < last && l < last {
      TotalAtLeast(procs[..last], k, l, p);
    } else if k < last {
      TotalAtLeast(procs[..last], k, k, p);
    } else if l < last {
      TotalAtLeast(procs[..last], l, l, p);
    }
  }

  // ---------- invariant ----------

  predicate IsPrivate(s: Space, v: Vpn) {
    var i := Find(s.areas, v);
    i < |s.areas| && s.areas[i].kind.Private?
  }

  /** Every strong count is the number of pages that hold the frame, plus the outside holders. */
  ghost predicate Counted(w: World) {
    forall p :: Refs(w.pool, p) == Total(w.procs, p) + w.ext[p]
  }

  /** Page `v` of process `k` and another page, `u` of process `l`, map the same frame. */
  predicate Aliased(w: World, k: nat, v: Vpn, l: nat, u: Vpn) {
    && k < |w.procs| && l < |w.procs| && v in w.procs[k].pt && u in w.procs[l].pt && (k != l || v != u)
    && w.procs[k].pt[v].ppn == w.procs[l].pt[u].ppn
  }

  /** A private page that can be written directly is the only page that maps its frame. */
  ghost predicate SoleWriters(w: World) {
    forall k: nat, v, l: nat, u | Aliased(w, k, v, l, u) && IsPrivate(w.procs[k], v) :: !w.procs[k].pt[v].w
  }

  /** No frame is mapped both privately and shared. */
  ghost predicate Unmixed(w: World) {
    forall k, v, l, u | 0 <= k < |w.procs| && 0 <= l < |w.procs| && v in w.procs[k].pt && u in w.procs[l].pt
                        && w.procs[k].pt[v].ppn == w.procs[l].pt[u].ppn ::
      IsPrivate(w.procs[k], v) == IsPrivate(w.procs[l], u)
  }

  ghost predicate WorldOk(w: World) {
    && PoolOk(w.pool)
    && (forall k | 0 <= k < |w.procs| :: SpaceOk(w.procs[k]))
    && Counted(w) && SoleWriters(w) && Unmixed(w)
  }

  lemma Held(w: World, k: nat, v: Vpn)
    requires Counted(w) && k < |w.procs| && v in w.procs[k].pt
    ensures w.procs[k].pt[v].ppn in w.pool.refs
  {
    hide Count, Total;
    var p := w.procs[k].pt[v].ppn;
    CountTwo(w.procs[k].pt, v, v);
    TotalAtLeast(w.procs, k, k, p);
    assert Refs(w.pool, p) >= 1;
  }

  lemma AllHeld(w: World, k: nat)
    requires Counted(w) && k < |w.procs|
    ensures HasFrames(w.procs[k], w.pool)
  {
    forall v | v in w.procs[k].pt ensures w.procs[k].pt[v].ppn in w.pool.refs { Held(w, k, v); }
  }

  /** A frame with one reference has one holder. */
  lemma SoleHolder(w: World, k: nat, v: Vpn, l: nat, u: Vpn)
    requires Counted(w) && k < |w.procs| && l < |w.procs| && v in w.procs[k].pt && u in w.procs[l].pt
    requires w.procs[k].pt[v].ppn == w.procs[l].pt[u].ppn && Refs(w.pool, w.procs[k].pt[v].ppn) == 1
    ensures k == l && v == u
  {
    hide Count, Total;
    var p := w.procs[k].pt[v].ppn;
    CountTwo(w.procs[k].pt, v, u);
    CountTwo(w.procs[l].pt, u, v);
    TotalAtLeast(w.procs, k, l, p);
    assert Refs(w.pool, p) == Total(w.procs, p) + w.ext[p];
  }

  lemma SoleNotAliased(w: World, k: nat, v: Vpn)
    requires Counted(w) && k < |w.procs| && v in w.procs[k].pt && Refs(w.pool, w.procs[k].pt[v].ppn) == 1
    ensures forall l: nat, u :: !Aliased(w, k, v, l, u)
  {
    hide Counted;
    forall l: nat, u ensures !Aliased(w, k, v, l, u) {
      if Aliased(w, k, v, l, u) { SoleHolder(w, k, v, l, u); }
    }
  }

  /** Replacing one address space keeps the counts right when the pool counted the difference. */
  lemma CountedUpdate(w: World, k: nat, s: Space, pool: Pool)
    requires Counted(w) && k < |w.procs|
    requires forall p :: Refs(pool, p) == Refs(w.pool, p) - Count(w.procs[k].pt, p) + Count(s.pt, p)
    ensures Counted(World(pool, w.procs[k := s], w.ext))
  {
    hide Count, Total;
    forall p ensures Refs(pool, p) == Total(w.procs[k := s], p) + w.ext[p] {
      TotalUpdate(w.procs, k, s, p);
      assert Refs(w.pool, p) == Total(w.procs, p) + w.ext[p];
    }
  }

  // ---------- the eager machine ----------

  datatype EagerPage = EagerPage(content: Page, writable: bool)
  /** The private pages a process can reach. */
  type Eager = imap<Vpn, EagerPage>

  ghost predicate Present(s: Space, v: Vpn) {
    IsPrivate(s, v) && (v in s.pt || s.areas[Find(s.areas, v)].lazy)
  }

  ghost function Look(s: Space, pool: Pool, v: Vpn): (e: EagerPage)
    requires Present(s, v)
  {
    var a := s.areas[Find(s.areas, v)];
    EagerPage(if v in s.pt then Contents(pool, s.pt[v].ppn) else ZeroPage, a.perm.w && a.perm.u)
  }

  ghost function View(s: Space, pool: Pool): (m: Eager) {
    imap v | Present(s, v) :: Look(s, pool, v)
  }

  ghost function Abs(w: World): (e: seq<Eager>)
    ensures |e| == |w.procs|
    ensures forall k | 0 <= k < |w.procs| :: e[k] == View(w.procs[k], w.pool)
  {
    seq(|w.procs|, k requires 0 <= k < |w.procs| => View(w.procs[k], w.pool))
  }

  /** Views only depend on the frames that are mapped. */
  lemma ViewFrame(s: Space, pool: Pool, pool': Pool)
    requires forall v | v in s.pt && IsPrivate(s, v) :: Contents(pool', s.pt[v].ppn) == Contents(pool, s.pt[v].ppn)
    ensures View(s, pool') == View(s, pool)
  {
    hide Find, Contents;
    forall v | Present(s, v) ensures Look(s, pool', v) == Look(s, pool, v) {
    }
  }

  // ---------- faults ----------

  ghost function Replace(w: World, k: nat, s: Space, pool: Pool): (r: World)
    requires k < |w.procs|
  {
    World(pool, w.procs[k := s], w.ext)
  }

  lemma ReplaceTwice(w: World, k: nat, s: Space, pool: Pool, t: Space, pool': Pool)
    requires k < |w.procs|
    ensures Replace(Replace(w, k, s, pool), k, t, pool') == Replace(w, k, t, pool')
  {
    assert w.procs[k := s][k := t] == w.procs[k := t];
  }

  /** The bytes of a page; a page not yet mapped reads as zeroes. */
  function PageBytes(s: Space, pool: Pool, v: Vpn): (b: Page) {
    if v in s.pt then Contents(pool, s.pt[v].ppn) else ZeroPage
  }

  /** Every page of every process, shared pages included, holds the same bytes, and no page was unmapped. */
  ghost predicate SameBytes(w: World, x: World) {
    && |x.procs| == |w.procs|
    && forall l, v | 0 <= l < |w.procs| ::
         (v in w.procs[l].pt ==> v in x.procs[l].pt) && PageBytes(x.procs[l], x.pool, v) == PageBytes(w.procs[l], w.pool, v)
  }

  lemma SameBytesRefl(w: World)
    ensures SameBytes(w, w)
  {
    hide PageBytes;
  }

  lemma SameBytesTrans(w: World, x: World, y: World)
    requires SameBytes(w, x) && SameBytes(x, y)
    ensures SameBytes(w, y)
  {
    hide PageBytes;
  }

  lemma InstallBytes(w: World, k: nat, v: Vpn, e: Pte, pool: Pool)
    requires Counted(w) && k < |w.procs| && Moved(w.procs[k], w.pool, v, e.ppn, pool)
    requires Find(w.procs[k].areas, v) < |w.procs[k].areas|
    ensures SameBytes(w, Replace(w, k, SetFrame(w.procs[k], Find(w.procs[k].areas, v), v, e), pool))
  {
    hide Find, PoolOk, Count, Total, Contents, Counted;
    forall l, u | 0 <= l < |w.procs| && u in w.procs[l].pt ensures w.procs[l].pt[u].ppn != e.ppn { Unheld(w, e.ppn, l, u); }
  }

  /** Granting W to a page that is shared, or the only holder of its frame. */
  lemma GrantOk(w: World, k: nat, v: Vpn)
    requires WorldOk(w) && k < |w.procs| && v in w.procs[k].pt
    requires Find(w.procs[k].areas, v) < |w.procs[k].areas| && w.procs[k].areas[Find(w.procs[k].areas, v)].perm.w
    requires IsPrivate(w.procs[k], v) ==> Refs(w.pool, w.procs[k].pt[v].ppn) == 1
    ensures WorldOk(Replace(w, k, SetFlags(w.procs[k], v, true), w.pool))
    ensures Abs(Replace(w, k, SetFlags(w.procs[k], v, true), w.pool)) == Abs(w)
  {
    hide Find, PoolOk, Count, Total;
    var s := w.procs[k];
    var r := SetFlags(s, v, true);
    assert SpaceOk(r) by { OwnerOf(s, v); SetFlagsOk(s, v, true); }
    assert Counted(Replace(w, k, r, w.pool)) by {
      forall p ensures Count(r.pt, p) == Count(s.pt, p) { CountPut(s.pt, v, r.pt[v], p); }
      CountedUpdate(w, k, r, w.pool);
    }
    assert View(r, w.pool) == View(s, w.pool) by {
      forall u ensures Present(r, u) == Present(s, u) && (Present(s, u) ==> Look(r, w.pool, u) == Look(s, w.pool, u)) { }
    }
    GrantUnmixed(w, k, v);
    if IsPrivate(s, v) { SoleNotAliased(w, k, v); }
    GrantSole(w, k, v);
  }

  lemma GrantUnmixed(w: World, k: nat, v: Vpn)
    requires Unmixed(w) && k < |w.procs| && v in w.procs[k].pt
    ensures Unmixed(Replace(w, k, SetFlags(w.procs[k], v, true), w.pool))
  {
    hide Find;
    var s := w.procs[k];
    var r := SetFlags(s, v, true);
    var x := Replace(w, k, r, w.pool);
    forall a, u, b, t | 0 <= a < |x.procs| && 0 <= b < |x.procs| && u in x.procs[a].pt && t in x.procs[b].pt
                        && x.procs[a].pt[u].ppn == x.procs[b].pt[t].ppn
      ensures IsPrivate(x.procs[a], u) == IsPrivate(x.procs[b], t)
    {
      assert u in w.procs[a].pt && w.procs[a].pt[u].ppn == x.procs[a].pt[u].ppn;
      assert t in w.procs[b].pt && w.procs[b].pt[t].ppn == x.procs[b].pt[t].ppn;
    }
  }

  lemma GrantSole(w: World, k: nat, v: Vpn)
    requires SoleWriters(w) && k < |w.procs| && v in w.procs[k].pt
    requires IsPrivate(w.procs[k], v) ==> forall l: nat, u :: !Aliased(w, k, v, l, u)
    ensures SoleWriters(Replace(w, k, SetFlags(w.procs[k], v, true), w.pool))
  {
    hide Find;
    var x := Replace(w, k, SetFlags(w.procs[k], v, true), w.pool);
    forall a: nat, u, b: nat, t | Aliased(x, a, u, b, t) && IsPrivate(x.procs[a], u) ensures !x.procs[a].pt[u].w {
      assert Aliased(w, a, u, b, t);
    }
  }

  /** The pool after page `v` was given fresh frame `p`, its previous frame, if any, dropped. */
  ghost predicate Moved(s: Space, pool: Pool, v: Vpn, p: Ppn, pool': Pool) {
    && PoolOk(pool') && Refs(pool, p) == 0
    && (forall q :: Refs(pool', q) == Refs(pool, q) + (if q == p then 1 else 0)
                                     - (if v in s.pt && s.pt[v].ppn == q then 1 else 0))
    && (forall q | q != p :: Contents(pool', q) == Contents(pool, q))
    && Contents(pool', p) == if v in s.pt then Contents(pool, s.pt[v].ppn) else ZeroPage
  }

  /** Giving a page of a private or unmapped place a fresh frame with the same contents. */
  lemma InstallOk(w: World, k: nat, v: Vpn, e: Pte, pool: Pool)
    requires WorldOk(w) && k < |w.procs| && Moved(w.procs[k], w.pool, v, e.ppn, pool)
    requires var i := Find(w.procs[k].areas, v); i < |w.procs[k].areas| && FlagsOk(w.procs[k].areas[i], e)
    requires v in w.procs[k].pt ==> IsPrivate(w.procs[k], v) && !w.procs[k].pt[v].w
    requires v !in w.procs[k].pt ==> w.procs[k].areas[Find(w.procs[k].areas, v)].lazy
    ensures var s := SetFrame(w.procs[k], Find(w.procs[k].areas, v), v, e);
            var x := Replace(w, k, s, pool);
            WorldOk(x) && Abs(x) == Abs(w) && SameBytes(w, x)
  {
    hide Find, PoolOk, Count, Total, Contents, Unmixed, SoleWriters, Refs, View, SameBytes;
    var s := w.procs[k];
    var r := SetFrame(s, Find(s.areas, v), v, e);
    SetFrameOk(s, Find(s.areas, v), v, e);
    assert Counted(Replace(w, k, r, pool)) by {
      forall p ensures Refs(pool, p) == Refs(w.pool, p) - Count(s.pt, p) + Count(r.pt, p) { CountPut(s.pt, v, e, p); }
      CountedUpdate(w, k, r, pool);
    }
    InstallViews(w, k, v, e, pool);
    InstallBytes(w, k, v, e, pool);
    InstallSole(w, k, v, e, pool);
    InstallUnmixed(w, k, v, e, pool);
  }

  /** No page maps a frame without references. */
  lemma Unheld(w: World, p: Ppn, l: nat, u: Vpn)
    requires Counted(w) && Refs(w.pool, p) == 0 && l < |w.procs| && u in w.procs[l].pt
    ensures w.procs[l].pt[u].ppn != p
  {
    var q := w.procs[l].pt[u].ppn;
    CountTwo(w.procs[l].pt, u, u);
    TotalAtLeast(w.procs, l, l, q);
    assert Refs(w.pool, q) == Total(w.procs, q) + w.ext[q];
  }

  /** It changes no view, whoever may write what. */
  lemma InstallViews(w: World, k: nat, v: Vpn, e: Pte, pool: Pool)
    requires Counted(w) && k < |w.procs| && SpaceOk(w.procs[k]) && Moved(w.procs[k], w.pool, v, e.ppn, pool)
    requires var i := Find(w.procs[k].areas, v); i < |w.procs[k].areas| && FlagsOk(w.procs[k].areas[i], e)
    requires v in w.procs[k].pt || w.procs[k].areas[Find(w.procs[k].areas, v)].lazy
    ensures Abs(Replace(w, k, SetFrame(w.procs[k], Find(w.procs[k].areas, v), v, e), pool)) == Abs(w)
  {
    hide Find, Counted, SpaceOk, Contents, View;
    InstallView(w, k, v, e, pool);
    forall l | 0 <= l < |w.procs| ensures View(w.procs[l], pool) == View(w.procs[l], w.pool) {
      forall u | u in w.procs[l].pt { Unheld(w, e.ppn, l, u); }
      ViewFrame(w.procs[l], w.pool, pool);
    }
  }

  lemma InstallView(w: World, k: nat, v: Vpn, e: Pte, pool: Pool)
    requires Counted(w) && k < |w.procs| && SpaceOk(w.procs[k]) && Moved(w.procs[k], w.pool, v, e.ppn, pool)
    requires var i := Find(w.procs[k].areas, v); i < |w.procs[k].areas| && FlagsOk(w.procs[k].areas[i], e)
    requires v in w.procs[k].pt || w.procs[k].areas[Find(w.procs[k].areas, v)].lazy
    ensures View(SetFrame(w.procs[k], Find(w.procs[k].areas, v), v, e), pool) == View(w.procs[k], w.pool)
  {
    hide Find, PoolOk, Count, Total, Contents, Unmixed, SoleWriters, Refs;
    var s := w.procs[k];
    var r := SetFrame(s, Find(s.areas, v), v, e);
    SetFrameOk(s, Find(s.areas, v), v, e);
    forall u ensures Present(r, u) == Present(s, u) && (Present(s, u) ==> Look(r, pool, u) == Look(s, w.pool, u)) {
      assert Find(r.areas, u) == Find(s.areas, u);
      if u in s.pt { Unheld(w, e.ppn, k, u); }
    }
  }

  lemma InstallSole(w: World, k: nat, v: Vpn, e: Pte, pool: Pool)
    requires WorldOk(w) && k < |w.procs| && Refs(w.pool, e.ppn) == 0 && Find(w.procs[k].areas, v) < |w.procs[k].areas|
    requires FlagsOk(w.procs[k].areas[Find(w.procs[k].areas, v)], e)
    ensures SoleWriters(Replace(w, k, SetFrame(w.procs[k], Find(w.procs[k].areas, v), v, e), pool))
  {
    hide Find, PoolOk, Count, Total, Unmixed, Refs, Counted;
    var s := w.procs[k];
    var r := SetFrame(s, Find(s.areas, v), v, e);
    SetFrameOk(s, Find(s.areas, v), v, e);
    var x := Replace(w, k, r, pool);
    forall a: nat, u, b: nat, t | Aliased(x, a, u, b, t) && IsPrivate(x.procs[a], u) ensures !x.procs[a].pt[u].w {
      if !(a == k && u == v) { Unheld(w, e.ppn, a, u); }
      if !(b == k && t == v) { Unheld(w, e.ppn, b, t); }
      assert Aliased(w, a, u, b, t);
      assert IsPrivate(x.procs[a], u) == IsPrivate(w.procs[a], u);
    }
  }

  lemma InstallUnmixed(w: World, k: nat, v: Vpn, e: Pte, pool: Pool)
    requires WorldOk(w) && k < |w.procs| && Moved(w.procs[k], w.pool, v, e.ppn, pool)
    requires var i := Find(w.procs[k].areas, v); i < |w.procs[k].areas| && FlagsOk(w.procs[k].areas[i], e)
    ensures Unmixed(Replace(w, k, SetFrame(w.procs[k], Find(w.procs[k].areas, v), v, e), pool))
  {
    hide Find, PoolOk, Count, Total, Contents, SoleWriters, Refs;
    var s := w.procs[k];
    var r := SetFrame(s, Find(s.areas, v), v, e);
    SetFrameOk(s, Find(s.areas, v), v, e);
    var x := Replace(w, k, r, pool);
    forall a, u, b, t | 0 <= a < |x.procs| && 0 <= b < |x.procs| && u in x.procs[a].pt && t in x.procs[b].pt
                        && x.procs[a].pt[u].ppn == x.procs[b].pt[t].ppn
      ensures IsPrivate(x.procs[a], u) == IsPrivate(x.procs[b], t)
    {
      if !(a == k && u == v) { Unheld(w, e.ppn, a, u); }
      if !(b == k && t == v) { Unheld(w, e.ppn, b, t); }
      assert IsPrivate(x.procs[a], u) == IsPrivate(w.procs[a], u);
      assert IsPrivate(x.procs[b], t) == IsPrivate(w.procs[b], t);
    }
  }

  /** `handle_cow_fault` in process `k`: keeps the invariant, and changes no view and no byte of any process. */
  lemma CowFaultOk(w: World, k: nat, v: Vpn)
    requires WorldOk(w) && k < |w.procs|
    ensures var r := CowFault(w.procs[k], w.pool, v);
            var x := Replace(w, k, r.space, r.pool);
            WorldOk(x) && Abs(x) == Abs(w) && SameBytes(w, x)
  {
    hide Find, PoolOk, Count, Total, Contents, Unmixed, SoleWriters, Counted, SpaceOk, Exhausted;
    var s := w.procs[k];
    var r := CowFault(s, w.pool, v);
    var i := Find(s.areas, v);
    if !r.ok {
      assert w.procs[k := s] == w.procs;
    } else if s.areas[i].kind.Shared? || Refs(w.pool, s.areas[i].frames[v]) == 1 {
      OwnerOf(s, v);
      GrantOk(w, k, v);
    } else {
      OwnerOf(s, v);
      CopyMoves(w, k, v);
      InstallOk(w, k, v, Pte(NextFrame(w.pool), true, s.pt[v].u), r.pool);
    }
  }

  /** The copy branch moves the page to a fresh frame with the same contents. */
  lemma CopyMoves(w: World, k: nat, v: Vpn)
    requires WorldOk(w) && k < |w.procs| && v in w.procs[k].pt && !Exhausted(w.pool)
    ensures var p, q := NextFrame(w.pool), w.procs[k].pt[v].ppn;
            Moved(w.procs[k], w.pool, v, p, DropRef(WritePage(AllocFrame(w.pool), p, Contents(AllocFrame(w.pool), q)), q))
  {
    hide Count, Total, Unmixed, SoleWriters, SpaceOk, PoolOk, AllocFrame, DropRef, Find;
    var p, q := NextFrame(w.pool), w.procs[k].pt[v].ppn;
    Held(w, k, v);
    AllocFresh(w.pool);
    var pool1 := AllocFrame(w.pool);
    assert Contents(pool1, q) == Contents(w.pool, q);
    WriteKeeps(pool1, p, Contents(pool1, q));
    var pool2 := WritePage(pool1, p, Contents(pool1, q));
    assert Refs(pool2, q) == Refs(w.pool, q) > 0 by { LivePositive(w.pool, q); }
    DropKeeps(pool2, q);
  }

  lemma LivePositive(pool: Pool, p: Ppn)
    requires PoolOk(pool) && p in pool.refs
    ensures Refs(pool, p) > 0
  {
  }

  lemma DemandMoves(s: Space, pool: Pool, v: Vpn)
    requires SpaceOk(s) && PoolOk(pool) && DemandFault(s, pool, v).ok
    ensures var i := FindLazy(s.areas, v, 0);
            && i < |s.areas| && i == Find(s.areas, v) && s.areas[i].lazy && v !in s.pt
            && Moved(s, pool, v, NextFrame(pool), DemandFault(s, pool, v).pool)
  {
    hide Find, FindLazy, Contents, PageOk, AllocFrame;
    FindUnique(s.areas, v, FindLazy(s.areas, v, 0));
    AllocFresh(pool);
  }

  /** A demand fault changes no view, whoever may write what. */
  lemma DemandViews(w: World, k: nat, v: Vpn)
    requires Counted(w) && k < |w.procs| && SpaceOk(w.procs[k]) && PoolOk(w.pool)
    ensures var r := DemandFault(w.procs[k], w.pool, v); Abs(Replace(w, k, r.space, r.pool)) == Abs(w)
  {
    hide Find, FindLazy, Counted, SpaceOk, PoolOk, View, Moved, AllocFrame, NextFrame;
    var s := w.procs[k];
    if DemandFault(s, w.pool, v).ok {
      var i := FindLazy(s.areas, v, 0);
      DemandMoves(s, w.pool, v);
      InstallViews(w, k, v, Pte(NextFrame(w.pool), s.areas[i].perm.w, s.areas[i].perm.u), AllocFrame(w.pool));
    } else {
      assert w.procs[k := s] == w.procs;
    }
  }

  /** `handle_demand_fault` in process `k`: keeps the invariant, and changes no view and no byte of any process. */
  lemma DemandFaultOk(w: World, k: nat, v: Vpn)
    requires WorldOk(w) && k < |w.procs|
    ensures var r := DemandFault(w.procs[k], w.pool, v);
            var x := Replace(w, k, r.space, r.pool);
            WorldOk(x) && Abs(x) == Abs(w) && SameBytes(w, x)
  {
    hide Find, FindLazy, Count, Total, Contents, Unmixed, SoleWriters, Counted, PageOk, AllocFrame;
    var s := w.procs[k];
    var r := DemandFault(s, w.pool, v);
    if !r.ok {
      assert w.procs[k := s] == w.procs;
    } else {
      var i := FindLazy(s.areas, v, 0);
      DemandMoves(s, w.pool, v);
      InstallOk(w, k, v, Pte(NextFrame(w.pool), s.areas[i].perm.w, s.areas[i].perm.u), r.pool);
    }
  }

  /** The page-fault handler: copy-on-write first, then demand paging. */
  function Fault(s: Space, pool: Pool, v: Vpn): (r: Outcome) {
    var c := CowFault(s, pool, v);
    if c.ok then c else DemandFault(s, pool, v)
  }

  lemma FaultOk(w: World, k: nat, v: Vpn)
    requires WorldOk(w) && k < |w.procs|
    ensures var r := Fault(w.procs[k], w.pool, v);
            var x := Replace(w, k, r.space, r.pool);
            WorldOk(x) && Abs(x) == Abs(w) && SameBytes(w, x)
  {
    hide WorldOk, Abs, SameBytes, CowFault, DemandFault;
    CowFaultOk(w, k, v);
    DemandFaultOk(w, k, v);
  }

  // ---------- fork ----------

  ghost predicate CanFork(w: World, p: nat, c: nat) {
    p < |w.procs| && c < |w.procs| && p != c && w.procs[c] == EmptySpace
  }

  ghost function Forked(w: World, p: nat, c: nat): (r: World)
    requires CanFork(w, p, c) && SpaceOk(w.procs[p])
  {
    var s := w.procs[p];
    World(ForkedPool(s, w.pool), w.procs[p := ForkedParent(s)][c := ForkedChild(s)], w.ext)
  }

  lemma ForkCounted(w: World, p: nat, c: nat)
    requires WorldOk(w) && CanFork(w, p, c)
    ensures Counted(Forked(w, p, c)) && PoolOk(Forked(w, p, c).pool)
  {
    hide Find, Count, Total, SpaceOk, ForkedParent, ForkedChild;
    var s := w.procs[p];
    var P, C := ForkedParent(s), ForkedChild(s);
    ForkOk(s);
    AllHeld(w, p);
    var mid := w.procs[p := P];
    forall q ensures Refs(ForkedPool(s, w.pool), q) == Total(mid[c := C], q) + w.ext[q] {
      ForkedRefs(s, w.pool, q);
      TotalUpdate(w.procs, p, P, q);
      TotalUpdate(mid, c, C, q);
      SameFramesSameCount(P.pt, s.pt, q);
      SameFramesSameCount(C.pt, s.pt, q);
      EmptyCount(q);
      assert Refs(w.pool, q) == Total(w.procs, q) + w.ext[q];
    }
  }

  lemma EmptyCount(p: Ppn)
    ensures Count(EmptySpace.pt, p) == 0
  {
    assert Mappings(EmptySpace.pt, p) == {};
  }

  /** After fork neither side has a private page with W. */
  lemma ForkFlags(s: Space, v: Vpn)
    requires SpaceOk(s) && v in s.pt && IsPrivate(s, v)
    ensures v in ForkedParent(s).pt && !ForkedParent(s).pt[v].w
    ensures v in ForkedChild(s).pt && !ForkedChild(s).pt[v].w
  {
    hide Find, AreasOk;
    AllKnown(s, |s.areas|);
    OwnerOf(s, v);
  }

  lemma ForkSole(w: World, p: nat, c: nat)
    requires WorldOk(w) && CanFork(w, p, c)
    ensures SoleWriters(Forked(w, p, c))
  {
    hide Find, Counted, SpaceOk, PoolOk, ForkedPool, Unmixed;
    var s := w.procs[p];
    ForkOk(s);
    var x := Forked(w, p, c);
    forall k: nat, v, l: nat, u | Aliased(x, k, v, l, u) && IsPrivate(x.procs[k], v) ensures !x.procs[k].pt[v].w {
      if k == p || k == c {
        ForkFlags(s, v);
      } else {
        assert Aliased(w, k, v, if l == c then p else l, u);
      }
    }
  }

  lemma ForkUnmixed(w: World, p: nat, c: nat)
    requires WorldOk(w) && CanFork(w, p, c)
    ensures Unmixed(Forked(w, p, c))
  {
    hide Find, SpaceOk, PoolOk, Counted, SoleWriters, ForkedPool, ForkedParent, ForkedChild;
    var s := w.procs[p];
    ForkOk(s);
    var x := Forked(w, p, c);
    ForkAreas(s);
    forall a, u, b, t | 0 <= a < |x.procs| && 0 <= b < |x.procs| && u in x.procs[a].pt && t in x.procs[b].pt
                        && x.procs[a].pt[u].ppn == x.procs[b].pt[t].ppn
      ensures IsPrivate(x.procs[a], u) == IsPrivate(x.procs[b], t)
    {
      var a', b' := if a == c then p else a, if b == c then p else b;
      assert u in w.procs[a'].pt && w.procs[a'].pt[u].ppn == x.procs[a].pt[u].ppn;
      assert t in w.procs[b'].pt && w.procs[b'].pt[t].ppn == x.procs[b].pt[t].ppn;
      assert IsPrivate(x.procs[a], u) == IsPrivate(w.procs[a'], u);
      assert IsPrivate(x.procs[b], t) == IsPrivate(w.procs[b'], t);
    }
  }

  lemma ForkAreas(s: Space)
    requires SpaceOk(s)
    ensures ForkedParent(s).areas == s.areas && ForkedChild(s).areas == s.areas
  {
  }

  lemma ForkViews(s: Space, pool: Pool)
    requires SpaceOk(s)
    ensures View(ForkedParent(s), ForkedPool(s, pool)) == View(s, pool)
    ensures View(ForkedChild(s), ForkedPool(s, pool)) == View(s, pool)
  {
    hide Find, SpaceOk, ForkedParent, ForkedChild;
    ForkOk(s);
    ForkAreas(s);
    var pool', P, C := ForkedPool(s, pool), ForkedParent(s), ForkedChild(s);
    forall v
      ensures Present(P, v) == Present(s, v) && (Present(s, v) ==> Look(P, pool', v) == Look(s, pool, v))
      ensures Present(C, v) == Present(s, v) && (Present(s, v) ==> Look(C, pool', v) == Look(s, pool, v))
    {
      assert v in P.pt.Keys <==> v in s.pt.Keys;
      assert v in C.pt.Keys <==> v in s.pt.Keys;
    }
  }

  /** Fork keeps the invariant, and the child sees exactly what the parent saw. */
  lemma ForkStepOk(w: World, p: nat, c: nat)
    requires WorldOk(w) && CanFork(w, p, c)
    ensures WorldOk(Forked(w, p, c))
    ensures Abs(Forked(w, p, c)) == Abs(w)[c := Abs(w)[p]]
  {
    hide Find, SpaceOk, PoolOk, Counted, SoleWriters, Unmixed, ForkedParent, ForkedChild, View;
    var s := w.procs[p];
    ForkOk(s);
    ForkCounted(w, p, c);
    ForkSole(w, p, c);
    ForkUnmixed(w, p, c);
    ForkViews(s, w.pool);
    forall k | 0 <= k < |w.procs| ensures View(w.procs[k], ForkedPool(s, w.pool)) == View(w.procs[k], w.pool) {
      ViewFrame(w.procs[k], w.pool, ForkedPool(s, w.pool));
    }
  }

  // ---------- exit ----------

  /** Dropping the tracked frames of the pages `keys`, one after the other. */
  function DropPages(pool: Pool, pt: PageMap, keys: seq<Vpn>): (r: Pool)
    decreases |keys|
  {
    if keys == [] then pool
    else DropPages(if keys[0] in pt then DropRef(pool, pt[keys[0]].ppn) else pool, pt - {keys[0]}, keys[1..])
  }

  /** Every drop is matched by a reference, so each frame is returned exactly when its last holder goes. */
  lemma {:induction false} DropPagesOk(pool: Pool, pt: PageMap, keys: seq<Vpn>)
    requires PoolOk(pool) && Enumerates(keys, pt.Keys)
    requires forall p :: Refs(pool, p) >= Count(pt, p)
    ensures var r := DropPages(pool, pt, keys);
            PoolOk(r) && r.mem == pool.mem && forall p :: Refs(r, p) == Refs(pool, p) - Count(pt, p)
    decreases |keys|
  {
    hide PoolOk, Count, DropRef, Refs;
    if keys == [] {
      assert pt.Keys == {};
      forall p ensures Count(pt, p) == 0 { NoKeysNoCount(pt, p); }
    } else {
      var v := keys[0];
      assert v in Elems(keys);
      var p := pt[v].ppn;
      CountTwo(pt, v, v);
      PositiveIsLive(pool, p);
      DropKeeps(pool, p);
      var rest := pt - {v};
      assert keys == [v] + keys[1..];
      assert Elems(keys) == {v} + Elems(keys[1..]);
      assert v !in Elems(keys[1..]);
      assert rest.Keys == Elems(keys[1..]);
      forall q ensures Count(rest, q) == Count(pt, q) - (if p == q then 1 else 0) { CountRemove(pt, v, q); }
      DropPagesOk(DropRef(pool, p), rest, keys[1..]);
    }
  }

  lemma NoKeysNoCount(pt: PageMap, p: Ppn)
    requires pt.Keys == {}
    ensures Count(pt, p) == 0
  {
    assert pt == map[];
    assert Mappings(pt, p) == {};
  }

  lemma PositiveIsLive(pool: Pool, p: Ppn)
    requires Refs(pool, p) > 0
    ensures p in pool.refs
  {
  }

  ghost predicate CanExit(w: World, k: nat, keys: seq<Vpn>) {
    k < |w.procs| && Enumerates(keys, w.procs[k].pt.Keys)
  }

  /** Process `k` exits; its frames are dropped in the order `keys`. */
  ghost function Exited(w: World, k: nat, keys: seq<Vpn>): (r: World)
    requires CanExit(w, k, keys)
  {
    Replace(w, k, EmptySpace, DropPages(w.pool, w.procs[k].pt, keys))
  }

  lemma EmptySpaceOk(pool: Pool)
    ensures SpaceOk(EmptySpace) && View(EmptySpace, pool) == imap[]
  {
    forall v ensures PageOk(EmptySpace.areas, EmptySpace.pt, v) && !Present(EmptySpace, v) {
    }
  }

  /** Exit keeps the invariant and the view of every other process; frames nobody holds any more are free. */
  lemma ExitStepOk(w: World, k: nat, keys: seq<Vpn>)
    requires WorldOk(w) && CanExit(w, k, keys)
    ensures WorldOk(Exited(w, k, keys))
    ensures Abs(Exited(w, k, keys)) == Abs(w)[k := imap[]]
  {
    hide Find, PoolOk, Count, Total, SpaceOk, View, Contents;
    var s := w.procs[k];
    var x := Exited(w, k, keys);
    forall p ensures Refs(w.pool, p) >= Count(s.pt, p) {
      TotalAtLeast(w.procs, k, k, p);
      assert Refs(w.pool, p) == Total(w.procs, p) + w.ext[p];
    }
    DropPagesOk(w.pool, s.pt, keys);
    EmptySpaceOk(x.pool);
    forall p ensures Count(EmptySpace.pt, p) == 0 { EmptyCount(p); }
    CountedUpdate(w, k, EmptySpace, x.pool);
    forall l | 0 <= l < |w.procs| ensures View(w.procs[l], x.pool) == View(w.procs[l], w.pool) {
      SameMem(w.procs[l], w.pool, x.pool);
    }
    forall a: nat, v, b: nat, u | Aliased(x, a, v, b, u) && IsPrivate(x.procs[a], v) ensures !x.procs[a].pt[v].w {
      assert Aliased(w, a, v, b, u);
    }
    assert Unmixed(x) by {
      assert forall l | 0 <= l < |x.procs| && x.procs[l].pt != map[] :: x.procs[l] == w.procs[l];
    }
  }

  lemma SameMem(s: Space, pool: Pool, pool': Pool)
    requires pool'.mem == pool.mem
    ensures View(s, pool') == View(s, pool)
  {
    ViewFrame(s, pool, pool');
  }

  // ---------- stores ----------

  /** The hardware lets user mode write the page. */
  predicate Writable(s: Space, v: Vpn) {
    v in s.pt && s.pt[v].w && s.pt[v].u
  }

  function StoreByte(s: Space, pool: Pool, v: Vpn, off: nat, b: int): (r: Pool)
    requires v in s.pt && off < PAGE_SIZE && 0 <= b < 256
  {
    WritePage(pool, s.pt[v].ppn, Contents(pool, s.pt[v].ppn)[off := b])
  }

  /** The same store on the eager machine: it succeeds on writable private pages. */
  ghost function EagerStore(e: Eager, v: Vpn, off: nat, b: int): (r: Eager)
    requires off < PAGE_SIZE && 0 <= b < 256
  {
    if v in e && e[v].writable then e[v := e[v].(content := e[v].content[off := b])] else e
  }

  lemma StoreCounts(w: World, k: nat, v: Vpn, off: nat, b: int)
    requires WorldOk(w) && k < |w.procs| && v in w.procs[k].pt && off < PAGE_SIZE && 0 <= b < 256
    ensures WorldOk(w.(pool := StoreByte(w.procs[k], w.pool, v, off, b)))
  {
    hide Find, PoolOk, Count, Total, SpaceOk, Contents;
    var s := w.procs[k];
    WriteKeeps(w.pool, s.pt[v].ppn, Contents(w.pool, s.pt[v].ppn)[off := b]);
    var x := w.(pool := StoreByte(s, w.pool, v, off, b));
    assert Counted(x);
    forall a: nat, u, c: nat, t | Aliased(x, a, u, c, t) && IsPrivate(x.procs[a], u) ensures !x.procs[a].pt[u].w {
      assert Aliased(w, a, u, c, t);
    }
    assert Unmixed(x);
  }

  /** A store through a writable entry changes that byte of that process's view and nothing else private. */
  lemma StoreOk(w: World, k: nat, v: Vpn, off: nat, b: int)
    requires WorldOk(w) && k < |w.procs| && Writable(w.procs[k], v) && off < PAGE_SIZE && 0 <= b < 256
    ensures WorldOk(w.(pool := StoreByte(w.procs[k], w.pool, v, off, b)))
    ensures Abs(w.(pool := StoreByte(w.procs[k], w.pool, v, off, b))) ==
            Abs(w)[k := EagerStore(Abs(w)[k], v, off, b)]
  {
    hide Find, PoolOk, Count, Total, SpaceOk, View, StoreByte;
    var s := w.procs[k];
    var pool := StoreByte(s, w.pool, v, off, b);
    StoreCounts(w, k, v, off, b);
    forall l | 0 <= l < |w.procs|
      ensures View(w.procs[l], pool) == if l == k then EagerStore(View(s, w.pool), v, off, b) else View(w.procs[l], w.pool)
    {
      if l == k { StoreView(w, k, v, off, b); } else { StoreOthers(w, k, v, off, b, l); }
    }
  }

  /** No private page shares the frame of a page with W. */
  lemma WrittenAlone(w: World, k: nat, v: Vpn)
    requires SoleWriters(w) && Unmixed(w) && k < |w.procs| && v in w.procs[k].pt && w.procs[k].pt[v].w
    ensures forall l: nat, u | Aliased(w, k, v, l, u) :: !IsPrivate(w.procs[l], u)
  {
    hide Find;
    forall l: nat, u | Aliased(w, k, v, l, u) ensures !IsPrivate(w.procs[l], u) {
      assert IsPrivate(w.procs[k], v) == IsPrivate(w.procs[l], u);
    }
  }

  lemma StoreOthers(w: World, k: nat, v: Vpn, off: nat, b: int, l: nat)
    requires WorldOk(w) && k < |w.procs| && Writable(w.procs[k], v) && off < PAGE_SIZE && 0 <= b < 256
    requires l < |w.procs| && l != k
    ensures View(w.procs[l], StoreByte(w.procs[k], w.pool, v, off, b)) == View(w.procs[l], w.pool)
  {
    hide Find, PoolOk, Count, Total, SpaceOk, View, Counted, SoleWriters, Unmixed;
    var s, t := w.procs[k], w.procs[l];
    WrittenAlone(w, k, v);
    var pool := StoreByte(s, w.pool, v, off, b);
    forall u | u in t.pt && IsPrivate(t, u) ensures Contents(pool, t.pt[u].ppn) == Contents(w.pool, t.pt[u].ppn) {
      assert !Aliased(w, k, v, l, u);
    }
    ViewFrame(t, w.pool, pool);
  }

  lemma StoreView(w: World, k: nat, v: Vpn, off: nat, b: int)
    requires WorldOk(w) && k < |w.procs| && Writable(w.procs[k], v) && off < PAGE_SIZE && 0 <= b < 256
    ensures View(w.procs[k], StoreByte(w.procs[k], w.pool, v, off, b)) == EagerStore(View(w.procs[k], w.pool), v, off, b)
  {
    hide Find, PoolOk, Count, Total, SpaceOk, Counted, SoleWriters, Unmixed;
    var s := w.procs[k];
    var pool := StoreByte(s, w.pool, v, off, b);
    WrittenAlone(w, k, v);
    OwnerOf(s, v);
    var e, e' := View(s, w.pool), View(s, pool);
    forall u | Present(s, u) ensures Look(s, pool, u) == EagerStore(e, v, off, b)[u] {
      if u in s.pt && u != v { assert !Aliased(w, k, v, k, u); }
    }
    assert e' == EagerStore(e, v, off, b);
  }

  /** A user store: the hardware writes, or the fault handler runs and the store is retried. */
  function UserStore(s: Space, pool: Pool, v: Vpn, off: nat, b: int): (r: Outcome)
    requires off < PAGE_SIZE && 0 <= b < 256
  {
    if Writable(s, v) then Outcome(true, s, StoreByte(s, pool, v, off, b))
    else
      var f := Fault(s, pool, v);
      if f.ok && Writable(f.space, v) then f.(pool := StoreByte(f.space, f.pool, v, off, b))
      else f.(ok := false)
  }

  /** A user store, with whatever faults it takes, is the eager store if it succeeds and nothing if it fails. */
  lemma UserStoreOk(w: World, k: nat, v: Vpn, off: nat, b: int)
    requires WorldOk(w) && k < |w.procs| && off < PAGE_SIZE && 0 <= b < 256
    ensures var r := UserStore(w.procs[k], w.pool, v, off, b);
            && WorldOk(Replace(w, k, r.space, r.pool))
            && Abs(Replace(w, k, r.space, r.pool)) == if r.ok then Abs(w)[k := EagerStore(Abs(w)[k], v, off, b)] else Abs(w)
  {
    hide WorldOk, Abs, Fault, StoreByte, EagerStore;
    var s := w.procs[k];
    if Writable(s, v) {
      StoreOk(w, k, v, off, b);
      assert w.procs[k := s] == w.procs;
    } else {
      FaultOk(w, k, v);
      var f := Fault(s, w.pool, v);
      var x := Replace(w, k, f.space, f.pool);
      if f.ok && Writable(f.space, v) { StoreOk(x, k, v, off, b); }
    }
  }

  /** The store needs a new frame: the page is not materialised, or its frame has other holders. */
  predicate NeedsFrame(s: Space, pool: Pool, v: Vpn) {
    v !in s.pt || (!s.pt[v].w && Refs(pool, s.pt[v].ppn) != 1)
  }

  /** A store to private memory succeeds exactly when the eager machine allows it and no frame is missing. */
  lemma StoreSucceedsExactly(w: World, k: nat, v: Vpn, off: nat, b: int)
    requires WorldOk(w) && k < |w.procs| && off < PAGE_SIZE && 0 <= b < 256 && IsPrivate(w.procs[k], v)
    ensures var s := w.procs[k];
            UserStore(s, w.pool, v, off, b).ok <==>
            Present(s, v) && Look(s, w.pool, v).writable && (NeedsFrame(s, w.pool, v) ==> !Exhausted(w.pool))
  {
    hide Find, FindLazy, Count, Total, Counted, SoleWriters, Unmixed, PoolOk, AllocFrame, StoreByte, DropRef, Contents;
    var s := w.procs[k];
    var i := Find(s.areas, v);
    if v in s.pt {
      OwnerOf(s, v);
    } else {
      assert PageOk(s.areas, s.pt, v);
      var j := FindLazy(s.areas, v, 0);
      if j < |s.areas| { FindUnique(s.areas, v, j); }
      if s.areas[i].lazy { assert j <= i; }
    }
  }

  // ---------- runs ----------

  datatype Step =
    | ForkTo(parent: nat, child: nat)
    | Store(proc: nat, vpn: Vpn, offset: nat, byte: int)
    | CowAt(proc: nat, vpn: Vpn)
    | DemandAt(proc: nat, vpn: Vpn)
    | Exit(proc: nat, order: seq<Vpn>)

  ghost predicate Allowed(w: World, st: Step) {
    match st
    case ForkTo(p, c) => CanFork(w, p, c)
    case Store(k, v, off, b) => k < |w.procs| && off < PAGE_SIZE && 0 <= b < 256
    case CowAt(k, v) => k < |w.procs|
    case DemandAt(k, v) => k < |w.procs|
    case Exit(k, keys) => CanExit(w, k, keys)
  }

  ghost function Next(w: World, st: Step): (r: World)
    requires WorldOk(w) && Allowed(w, st)
  {
    match st
    case ForkTo(p, c) => Forked(w, p, c)
    case Store(k, v, off, b) => var r := UserStore(w.procs[k], w.pool, v, off, b); Replace(w, k, r.space, r.pool)
    case CowAt(k, v) => var r := CowFault(w.procs[k], w.pool, v); Replace(w, k, r.space, r.pool)
    case DemandAt(k, v) => var r := DemandFault(w.procs[k], w.pool, v); Replace(w, k, r.space, r.pool)
    case Exit(k, keys) => Exited(w, k, keys)
  }

  /** The same step on the eager machine: fork copies every page, faults do nothing. A store fails on both
      machines alike, or because memory ran out. */
  ghost function EagerNext(w: World, e: seq<Eager>, st: Step): (r: seq<Eager>)
    requires WorldOk(w) && Allowed(w, st) && |e| == |w.procs|
  {
    match st
    case ForkTo(p, c) => e[c := e[p]]
    case Store(k, v, off, b) =>
      if UserStore(w.procs[k], w.pool, v, off, b).ok then e[k := EagerStore(e[k], v, off, b)] else e
    case CowAt(_, _) => e
    case DemandAt(_, _) => e
    case Exit(k, _) => e[k := imap[]]
  }

  lemma StepRefines(w: World, st: Step)
    requires WorldOk(w) && Allowed(w, st)
    ensures WorldOk(Next(w, st)) && |Next(w, st).procs| == |w.procs|
    ensures Abs(Next(w, st)) == EagerNext(w, Abs(w), st)
  {
    hide WorldOk, Abs, UserStore, CowFault, DemandFault, EagerStore, SpaceOk;
    match st
    case ForkTo(p, c) => ForkStepOk(w, p, c);
    case Store(k, v, off, b) => UserStoreOk(w, k, v, off, b);
    case CowAt(k, v) => CowFaultOk(w, k, v);
    case DemandAt(k, v) => DemandFaultOk(w, k, v);
    case Exit(k, keys) => ExitStepOk(w, k, keys);
  }

  ghost predicate IsRun(ws: seq<World>, steps: seq<Step>) {
    && |ws| == |steps| + 1 && WorldOk(ws[0])
    && forall i | 0 <= i < |steps| :: WorldOk(ws[i]) ==> Allowed(ws[i], steps[i]) && ws[i + 1] == Next(ws[i], steps[i])
  }

  ghost predicate IsEagerRun(ws: seq<World>, es: seq<seq<Eager>>, steps: seq<Step>)
    requires |ws| == |steps| + 1
  {
    && |es| == |ws| && es[0] == Abs(ws[0])
    && forall i | 0 <= i < |steps| && WorldOk(ws[i]) && Allowed(ws[i], steps[i]) && |es[i]| == |ws[i].procs| ::
         es[i + 1] == EagerNext(ws[i], es[i], steps[i])
  }

  /** Over every run of forks, stores, faults and exits, every process sees in its private memory exactly what it
      would see if fork had copied every page; and the invariant holds throughout. */
  lemma {:induction false} CowRefinesEagerCopy(ws: seq<World>, es: seq<seq<Eager>>, steps: seq<Step>, n: nat)
    requires IsRun(ws, steps) && IsEagerRun(ws, es, steps) && n < |ws|
    ensures WorldOk(ws[n]) && es[n] == Abs(ws[n])
  {
    hide WorldOk, Abs, Next, EagerNext, Allowed;
    if n > 0 {
      CowRefinesEagerCopy(ws, es, steps, n - 1);
      assert WorldOk(ws[n - 1]) && Allowed(ws[n - 1], steps[n - 1]) && ws[n - 1 + 1] == Next(ws[n - 1], steps[n - 1]);
      StepRefines(ws[n - 1], steps[n - 1]);
    }
  }

  // ---------- reference counts of writable pages ----------

  ghost predicate Unmapped(procs: seq<Space>, p: Ppn) {
    forall l, u | 0 <= l < |procs| && u in procs[l].pt :: procs[l].pt[u].ppn != p
  }

  lemma {:induction false} TotalNone(procs: seq<Space>, p: Ppn)
    requires Unmapped(procs, p)
    ensures Total(procs, p) == 0
  {
    if procs != [] {
      var last := |procs| - 1;
      TotalNone(procs[..last], p);
      assert procs[last] in procs;
      assert Mappings(procs[last].pt, p) == {};
    }
  }

  lemma {:induction false} TotalAlone(procs: seq<Space>, k: nat, v: Vpn)
    requires k < |procs| && v in procs[k].pt
    requires forall l, u | 0 <= l < |procs| && u in procs[l].pt && (l != k || u != v) :: procs[l].pt[u].ppn != procs[k].pt[v].ppn
    ensures Total(procs, procs[k].pt[v].ppn) == 1
  {
    var last, p := |procs| - 1, procs[k].pt[v].ppn;
    if k == last {
      assert Mappings(procs[k].pt, p) == {v};
      TotalNone(procs[..last], p);
    } else {
      TotalAlone(procs[..last], k, v);
      assert Mappings(procs[last].pt, p) == {};
    }
  }

  /** The frame of a private page with W has one reference besides those held outside address spaces. */
  lemma WriterHolds(w: World, k: nat, v: Vpn)
    requires WorldOk(w) && k < |w.procs| && v in w.procs[k].pt && IsPrivate(w.procs[k], v) && w.procs[k].pt[v].w
    ensures var p := w.procs[k].pt[v].ppn; Refs(w.pool, p) == 1 + w.ext[p]
  {
    hide Find, PoolOk, SpaceOk, Unmixed, Total, Count;
    var p := w.procs[k].pt[v].ppn;
    forall l, u | 0 <= l < |w.procs| && u in w.procs[l].pt && (l != k || u != v) ensures w.procs[l].pt[u].ppn != p {
      assert !Aliased(w, k, v, l, u);
    }
    TotalAlone(w.procs, k, v);
    assert Refs(w.pool, p) == Total(w.procs, p) + w.ext[p];
  }

  /** Nothing outside address spaces holds the frame of a private page with W. */
  ghost predicate HeldInside(w: World) {
    forall k, v | 0 <= k < |w.procs| && v in w.procs[k].pt && IsPrivate(w.procs[k], v) && w.procs[k].pt[v].w ::
      w.ext[w.procs[k].pt[v].ppn] == 0
  }

  lemma NotOutside(w: World, p: Ppn)
    requires Counted(w) && Refs(w.pool, p) == 0
    ensures w.ext[p] == 0
  {
    assert Refs(w.pool, p) == Total(w.procs, p) + w.ext[p];
  }

  lemma OnlyInside(w: World, k: nat, v: Vpn)
    requires Counted(w) && k < |w.procs| && v in w.procs[k].pt && Refs(w.pool, w.procs[k].pt[v].ppn) == 1
    ensures w.ext[w.procs[k].pt[v].ppn] == 0
  {
    hide Count, Total;
    var p := w.procs[k].pt[v].ppn;
    CountTwo(w.procs[k].pt, v, v);
    TotalAtLeast(w.procs, k, k, p);
    assert Refs(w.pool, p) == Total(w.procs, p) + w.ext[p];
  }

  lemma CowInside(w: World, k: nat, v: Vpn)
    requires WorldOk(w) && HeldInside(w) && k < |w.procs|
    ensures var r := CowFault(w.procs[k], w.pool, v); HeldInside(Replace(w, k, r.space, r.pool))
  {
    hide Find, PoolOk, Counted, Unmixed, SoleWriters, SpaceOk, Exhausted, Contents, DropRef, AllocFrame, NextFrame;
    var s := w.procs[k];
    var i := Find(s.areas, v);
    if i < |s.areas| && s.areas[i].perm.w && v in s.pt && !s.pt[v].w {
      OwnerOf(s, v);
      if Refs(w.pool, s.pt[v].ppn) == 1 {
        OnlyInside(w, k, v);
      } else if !Exhausted(w.pool) {
        AllocFresh(w.pool);
        NotOutside(w, NextFrame(w.pool));
        SetFrameOk(s, i, v, Pte(NextFrame(w.pool), true, s.pt[v].u));
      }
    }
  }

  lemma DemandInside(w: World, k: nat, v: Vpn)
    requires WorldOk(w) && HeldInside(w) && k < |w.procs|
    ensures var r := DemandFault(w.procs[k], w.pool, v); HeldInside(Replace(w, k, r.space, r.pool))
  {
    hide Find, FindLazy, PoolOk, Counted, Unmixed, SoleWriters, SpaceOk, Exhausted, AllocFrame, NextFrame;
    var s := w.procs[k];
    if DemandFault(s, w.pool, v).ok {
      var i := FindLazy(s.areas, v, 0);
      AllocFresh(w.pool);
      NotOutside(w, NextFrame(w.pool));
      SetFrameOk(s, i, v, Pte(NextFrame(w.pool), s.areas[i].perm.w, s.areas[i].perm.u));
    }
  }

  lemma ForkInside(w: World, p: nat, c: nat)
    requires WorldOk(w) && HeldInside(w) && CanFork(w, p, c)
    ensures HeldInside(Forked(w, p, c))
  {
    hide Find, PoolOk, Counted, Unmixed, SoleWriters, SpaceOk, ForkedPool;
    var s, x := w.procs[p], Forked(w, p, c);
    ForkOk(s);
    forall k, v | 0 <= k < |x.procs| && v in x.procs[k].pt && IsPrivate(x.procs[k], v) && x.procs[k].pt[v].w
      ensures x.ext[x.procs[k].pt[v].ppn] == 0
    {
      if k == p || k == c {
        ForkFlags(s, v);
        assert false;
      }
    }
  }

  lemma StepInside(w: World, st: Step)
    requires WorldOk(w) && Allowed(w, st) && HeldInside(w)
    ensures HeldInside(Next(w, st))
  {
    hide WorldOk, HeldInside, CowFault, DemandFault, SpaceOk, StoreByte, Forked, DropPages, IsPrivate;
    match st
    case ForkTo(p, c) => ForkInside(w, p, c);
    case Store(k, v, off, b) => CowInside(w, k, v); DemandInside(w, k, v); StoreInside(w, k, v, off, b);
    case CowAt(k, v) => CowInside(w, k, v);
    case DemandAt(k, v) => DemandInside(w, k, v);
    case Exit(k, keys) => ExitInside(w, k, keys);
  }

  /** The predicate does not look at the pool. */
  lemma InsidePool(w: World, pool: Pool)
    requires HeldInside(w)
    ensures HeldInside(w.(pool := pool))
  {
    hide Find;
  }

  lemma StoreInside(w: World, k: nat, v: Vpn, off: nat, b: int)
    requires HeldInside(w) && k < |w.procs| && off < PAGE_SIZE && 0 <= b < 256
    requires var r := CowFault(w.procs[k], w.pool, v); HeldInside(Replace(w, k, r.space, r.pool))
    requires var r := DemandFault(w.procs[k], w.pool, v); HeldInside(Replace(w, k, r.space, r.pool))
    ensures var r := UserStore(w.procs[k], w.pool, v, off, b); HeldInside(Replace(w, k, r.space, r.pool))
  {
    hide HeldInside, CowFault, DemandFault, StoreByte;
    var s, r := w.procs[k], UserStore(w.procs[k], w.pool, v, off, b);
    var f := Fault(s, w.pool, v);
    InsidePool(w, r.pool);
    InsidePool(Replace(w, k, f.space, f.pool), r.pool);
    assert w.procs[k := s] == w.procs;
  }

  lemma ExitInside(w: World, k: nat, keys: seq<Vpn>)
    requires HeldInside(w) && CanExit(w, k, keys)
    ensures HeldInside(Exited(w, k, keys))
  {
    hide Find, DropPages;
  }

  /** Over every such run from a world where nothing outside holds the frames of writable private pages, a private page
      with W is the only holder of its frame: its strong count is one. */
  lemma {:induction false} WritersAreSoleHolders(ws: seq<World>, steps: seq<Step>, n: nat, k: nat, v: Vpn)
    requires IsRun(ws, steps) && HeldInside(ws[0]) && n < |ws|
    ensures WorldOk(ws[n]) && HeldInside(ws[n])
    ensures k < |ws[n].procs| && v in ws[n].procs[k].pt && IsPrivate(ws[n].procs[k], v) && ws[n].procs[k].pt[v].w ==>
              Refs(ws[n].pool, ws[n].procs[k].pt[v].ppn) == 1
  {
    hide WorldOk, Next, Allowed, IsPrivate, Refs;
    if n > 0 {
      WritersAreSoleHolders(ws, steps, n - 1, k, v);
      assert WorldOk(ws[n - 1]) && Allowed(ws[n - 1], steps[n - 1]) && ws[n - 1 + 1] == Next(ws[n - 1], steps[n - 1]);
      StepRefines(ws[n - 1], steps[n - 1]);
      StepInside(ws[n - 1], steps[n - 1]);
    }
    var w := ws[n];
    if k < |w.procs| && v in w.procs[k].pt && IsPrivate(w.procs[k], v) && w.procs[k].pt[v].w { WriterHolds(w, k, v); }
  }
}
