/** Copy-on-write fork (`from_existed_user`): its two page scans, and the closed form both compute. */
module Forks {
  import opened Collections
  import opened Frames
  import opened AddressSpaces

  /** Areas of more pages than this are cloned from `data_frames` instead of scanned. */
  const FULL_VPN_SCAN_LIMIT: nat := 4096

  /** The state the scan of one area updates. `panicked`: a page without a tracked frame met an empty allocator. */
  datatype ForkState = ForkState(parent: PageMap, child: PageMap, frames: map<Vpn, Ppn>, pool: Pool, panicked: bool)

  /** A private writable page loses W on both sides; a shared page of a writable area has W on both. */
  function ParentPte(a: MapArea, e: Pte): (r: Pte) {
    if a.kind.Shared? then (if a.perm.w then e.(w := true) else e)
    else if a.perm.w then e.(w := false) else e
  }

  function ChildPte(a: MapArea, e: Pte): (r: Pte) {
    if a.kind.Shared? then e.(w := a.perm.w)
    else if a.perm.w then e.(w := false) else e
  }

  /** The body of both page loops, for page `v` of area `a`. */
  function ForkPage(st: ForkState, a: MapArea, v: Vpn): (r: ForkState) {
    if st.panicked || v !in st.parent then st
    else
      var e := st.parent[v];
      if v in a.frames then
        st.(parent := if ParentPte(a, e) != e then st.parent[v := ParentPte(a, e)] else st.parent,
            child := st.child[v := ChildPte(a, e).(ppn := a.frames[v])],
            frames := st.frames[v := a.frames[v]],
            pool := CloneRef(st.pool, a.frames[v]))
      else if Exhausted(st.pool) then st.(panicked := true)
      else
        var fresh_ := NextFrame(st.pool);
        var writable := a.perm.w && a.kind.Private?;
        st.(parent := if writable then st.parent[v := e.(w := false)] else st.parent,
            child := st.child[v := Pte(fresh_, if writable then false else e.w, e.u)],
            frames := st.frames[v := fresh_],
            pool := WritePage(AllocFrame(st.pool), fresh_, Contents(AllocFrame(st.pool), e.ppn)))
  }

  /** The full scan of a small area. */
  function ScanAll(st: ForkState, a: MapArea, lo: Vpn, hi: Vpn): (r: ForkState)
    decreases hi - lo
  {
    if lo >= hi then st else ScanAll(ForkPage(st, a, lo), a, lo + 1, hi)
  }

  /** The sparse scan of a large area: the tracked pages only, in some order. */
  function ScanTracked(st: ForkState, a: MapArea, keys: seq<Vpn>): (r: ForkState)
    decreases |keys|
  {
    if keys == [] then st else ScanTracked(ForkPage(st, a, keys[0]), a, keys[1..])
  }

  ghost predicate Enumerates(keys: seq<Vpn>, vs: set<Vpn>) {
    Distinct(keys) && Elems(keys) == vs
  }

  // ---------- closed form ----------

  function AreaOf(s: Space, v: Vpn): (a: MapArea)
    requires Find(s.areas, v) < |s.areas|
  {
    s.areas[Find(s.areas, v)]
  }

  ghost predicate Known(s: Space, vs: set<Vpn>) {
    forall v | v in vs :: v in s.pt && Find(s.areas, v) < |s.areas|
  }

  ghost function ParentMap(s: Space, done: set<Vpn>): (m: PageMap)
    requires Known(s, done)
  {
    map v | v in s.pt :: if v in done then ParentPte(AreaOf(s, v), s.pt[v]) else s.pt[v]
  }

  ghost function ChildMap(s: Space, done: set<Vpn>): (m: PageMap)
    requires Known(s, done)
  {
    map v | v in done :: ChildPte(AreaOf(s, v), s.pt[v])
  }

  /** One more reference to each frame for each page in `done` that maps it. */
  ghost function Bumped(s: Space, pool: Pool, done: set<Vpn>): (r: Pool) {
    pool.(refs := map p | p in pool.refs :: pool.refs[p] + |done * Mappings(s.pt, p)|)
  }

  ghost predicate HasFrames(s: Space, pool: Pool) {
    forall v | v in s.pt :: s.pt[v].ppn in pool.refs
  }

  ghost function Closed(s: Space, pool: Pool, frames: map<Vpn, Ppn>, done: set<Vpn>): (st: ForkState)
    requires Known(s, done)
  {
    ForkState(ParentMap(s, done), ChildMap(s, done), frames, Bumped(s, pool, done), false)
  }

  lemma OneMore(done: set<Vpn>, v: Vpn, m: set<Vpn>)
    requires v !in done
    ensures |(done + {v}) * m| == |done * m| + if v in m then 1 else 0
  {
    assert (done + {v}) * m == if v in m then done * m + {v} else done * m;
  }

  lemma BumpOne(s: Space, pool: Pool, done: set<Vpn>, v: Vpn)
    requires HasFrames(s, pool) && v in s.pt && v !in done
    ensures CloneRef(Bumped(s, pool, done), s.pt[v].ppn) == Bumped(s, pool, done + {v})
  {
    hide Mappings;
    var a, b := CloneRef(Bumped(s, pool, done), s.pt[v].ppn), Bumped(s, pool, done + {v});
    assert a.refs.Keys == b.refs.Keys;
    forall p | p in pool.refs ensures a.refs[p] == b.refs[p] {
      BumpAt(s, pool, done, v, p);
    }
    assert a.refs == b.refs;
  }

  lemma BumpAt(s: Space, pool: Pool, done: set<Vpn>, v: Vpn, p: Ppn)
    requires v in s.pt && v !in done && p in pool.refs
    ensures Bumped(s, pool, done + {v}).refs[p] ==
            Bumped(s, pool, done).refs[p] + if s.pt[v].ppn == p then 1 else 0
  {
    OneMore(done, v, Mappings(s.pt, p));
  }

  lemma ParentOne(s: Space, done: set<Vpn>, v: Vpn)
    requires Known(s, done) && v in s.pt && v !in done && Find(s.areas, v) < |s.areas|
    ensures v in ParentMap(s, done) && ParentMap(s, done)[v] == s.pt[v]
    ensures ParentMap(s, done)[v := ParentPte(AreaOf(s, v), s.pt[v])] == ParentMap(s, done + {v})
  {
    hide Find, ParentPte;
  }

  lemma ChildOne(s: Space, done: set<Vpn>, v: Vpn)
    requires Known(s, done) && v in s.pt && Find(s.areas, v) < |s.areas|
    ensures ChildMap(s, done)[v := ChildPte(AreaOf(s, v), s.pt[v])] == ChildMap(s, done + {v})
  {
    hide Find, ChildPte;
  }

  /** Visiting a tracked page extends the closed form by that page. */
  lemma VisitTracked(s: Space, pool: Pool, frames: map<Vpn, Ppn>, done: set<Vpn>, i: nat, v: Vpn)
    requires SpaceOk(s) && HasFrames(s, pool) && Known(s, done) && i < |s.areas|
    requires v in s.areas[i].frames && v !in done
    ensures Known(s, done + {v})
    ensures ForkPage(Closed(s, pool, frames, done), s.areas[i], v) ==
            Closed(s, pool, frames[v := s.areas[i].frames[v]], done + {v})
  {
    hide Find, Disjoint, Bumped, ParentMap, ChildMap, CloneRef;
    var a := s.areas[i];
    assert AreaOk(a);
    FindUnique(s.areas, v, i);
    assert PageOk(s.areas, s.pt, v);
    assert AreaOf(s, v) == a;
    BumpOne(s, pool, done, v);
    ParentOne(s, done, v);
    ChildOne(s, done, v);
    var e := s.pt[v];
    if ParentPte(a, e) == e {
      assert ParentMap(s, done)[v := e] == ParentMap(s, done);
    }
    assert ChildPte(a, e).(ppn := a.frames[v]) == ChildPte(a, e);
  }

  /** Visiting a page without an entry changes nothing. */
  lemma VisitUnmapped(s: Space, pool: Pool, frames: map<Vpn, Ppn>, done: set<Vpn>, i: nat, v: Vpn)
    requires SpaceOk(s) && Known(s, done) && i < |s.areas| && In(s.areas[i], v) && v !in s.areas[i].frames
    ensures v !in s.pt
    ensures ForkPage(Closed(s, pool, frames, done), s.areas[i], v) == Closed(s, pool, frames, done)
  {
    hide Find, Disjoint;
    FindUnique(s.areas, v, i);
    assert PageOk(s.areas, s.pt, v);
  }

  ghost function Restrict(m: map<Vpn, Ppn>, lo: Vpn): (r: map<Vpn, Ppn>) {
    map v | v in m && v < lo :: m[v]
  }

  /** The full scan computes the closed form. */
  lemma {:induction false} ScanAllCloses(s: Space, pool: Pool, done: set<Vpn>, i: nat, lo: Vpn)
    requires SpaceOk(s) && HasFrames(s, pool) && Known(s, done) && i < |s.areas|
    requires s.areas[i].start <= lo <= s.areas[i].end
    requires forall v | v in s.areas[i].frames :: v in done <==> v < lo
    ensures Known(s, done + s.areas[i].frames.Keys)
    ensures ScanAll(Closed(s, pool, Restrict(s.areas[i].frames, lo), done), s.areas[i], lo, s.areas[i].end) ==
            Closed(s, pool, s.areas[i].frames, done + s.areas[i].frames.Keys)
    decreases s.areas[i].end - lo
  {
    hide SpaceOk, HasFrames, Known, ForkPage, Closed, Restrict;
    var a := s.areas[i];
    FramesWithin(s, i);
    if lo == a.end {
      RestrictAll(a.frames, lo);
      assert done + a.frames.Keys == done;
    } else if lo in a.frames {
      VisitTracked(s, pool, Restrict(a.frames, lo), done, i, lo);
      RestrictNext(a.frames, lo);
      ScanAllCloses(s, pool, done + {lo}, i, lo + 1);
      assert done + {lo} + a.frames.Keys == done + a.frames.Keys;
    } else {
      VisitUnmapped(s, pool, Restrict(a.frames, lo), done, i, lo);
      RestrictNext(a.frames, lo);
      ScanAllCloses(s, pool, done, i, lo + 1);
    }
  }

  lemma FramesWithin(s: Space, i: nat)
    requires SpaceOk(s) && i < |s.areas|
    ensures AreaOk(s.areas[i])
  {
  }

  lemma RestrictAll(frames: map<Vpn, Ppn>, end: Vpn)
    requires forall v | v in frames :: v < end
    ensures Restrict(frames, end) == frames
  {
  }

  lemma RestrictNext(frames: map<Vpn, Ppn>, lo: Vpn)
    ensures Restrict(frames, lo + 1) == if lo in frames then Restrict(frames, lo)[lo := frames[lo]] else Restrict(frames, lo)
  {
  }

  /** The sparse scan computes the same closed form, in whatever order the pages come. */
  lemma {:induction false} ScanTrackedCloses(s: Space, pool: Pool, frames: map<Vpn, Ppn>, done: set<Vpn>, i: nat, keys: seq<Vpn>)
    requires SpaceOk(s) && HasFrames(s, pool) && Known(s, done) && i < |s.areas|
    requires Distinct(keys) && forall k | 0 <= k < |keys| :: keys[k] in s.areas[i].frames && keys[k] !in done
    requires forall v | v in frames :: v in s.areas[i].frames && frames[v] == s.areas[i].frames[v]
    requires frames.Keys + Elems(keys) == s.areas[i].frames.Keys
    ensures Known(s, done + Elems(keys))
    ensures ScanTracked(Closed(s, pool, frames, done), s.areas[i], keys) ==
            Closed(s, pool, s.areas[i].frames, done + Elems(keys))
    decreases |keys|
  {
    hide Find, SpaceOk, ForkPage, Closed;
    var a := s.areas[i];
    if keys == [] {
      assert done + Elems(keys) == done;
      assert frames == a.frames;
    } else {
      var v := keys[0];
      VisitTracked(s, pool, frames, done, i, v);
      assert keys == [v] + keys[1..];
      assert Elems(keys) == {v} + Elems(keys[1..]);
      ScanTrackedCloses(s, pool, frames[v := a.frames[v]], done + {v}, i, keys[1..]);
      assert done + {v} + Elems(keys[1..]) == done + Elems(keys);
    }
  }

  /** Cloning only `data_frames` yields the same child entries, child frames, parent entries and counts as
      scanning every page of the area. */
  lemma SparseRefinesFullScan(s: Space, pool: Pool, done: set<Vpn>, i: nat, keys: seq<Vpn>)
    requires SpaceOk(s) && HasFrames(s, pool) && Known(s, done) && i < |s.areas|
    requires done !! s.areas[i].frames.Keys && Enumerates(keys, s.areas[i].frames.Keys)
    ensures var st := Closed(s, pool, map[], done);
            ScanTracked(st, s.areas[i], keys) == ScanAll(st, s.areas[i], s.areas[i].start, s.areas[i].end)
  {
    hide Find, Disjoint, ForkPage, Closed, PageOk;
    var a := s.areas[i];
    assert AreaOk(a);
    assert Restrict(a.frames, a.start) == map[];
    ScanAllCloses(s, pool, done, i, a.start);
    forall k | 0 <= k < |keys| ensures keys[k] in a.frames && keys[k] !in done {
      assert keys[k] in Elems(keys);
    }
    ScanTrackedCloses(s, pool, map[], done, i, keys);
  }

  // ---------- the whole address space ----------

  ghost function DoneUpTo(s: Space, k: nat): (vs: set<Vpn>) {
    set v | v in s.pt && Find(s.areas, v) < k
  }

  lemma AllKnown(s: Space, k: nat)
    requires SpaceOk(s) && k <= |s.areas|
    ensures Known(s, DoneUpTo(s, k))
    ensures k == |s.areas| ==> DoneUpTo(s, k) == s.pt.Keys
  {
    hide Find, AreasOk;
    forall v | v in s.pt ensures Find(s.areas, v) < |s.areas| {
      assert PageOk(s.areas, s.pt, v);
    }
  }

  lemma DoneOneMore(s: Space, k: nat)
    requires SpaceOk(s) && k < |s.areas|
    ensures DoneUpTo(s, k) !! s.areas[k].frames.Keys
    ensures DoneUpTo(s, k) + s.areas[k].frames.Keys == DoneUpTo(s, k + 1)
  {
    hide Find, Disjoint;
    assert AreaOk(s.areas[k]);
    forall v ensures v in s.areas[k].frames <==> v in s.pt && Find(s.areas, v) == k {
      assert PageOk(s.areas, s.pt, v);
      if v in s.areas[k].frames { FindUnique(s.areas, v, k); }
    }
  }

  /** The parent after fork. */
  ghost function ForkedParent(s: Space): (r: Space)
    requires SpaceOk(s)
  {
    AllKnown(s, |s.areas|);
    s.(pt := ParentMap(s, s.pt.Keys))
  }

  /** The child: the same areas and frames, with its own page table. */
  ghost function ForkedChild(s: Space): (r: Space)
    requires SpaceOk(s)
  {
    AllKnown(s, |s.areas|);
    s.(pt := ChildMap(s, s.pt.Keys))
  }

  ghost function ForkedPool(s: Space, pool: Pool): (r: Pool) {
    Bumped(s, pool, s.pt.Keys)
  }

  /** Both address spaces satisfy the bookkeeping invariant and map the same frames as before. */
  lemma ForkOk(s: Space)
    requires SpaceOk(s)
    ensures SpaceOk(ForkedParent(s)) && SpaceOk(ForkedChild(s))
    ensures ForkedParent(s).pt.Keys == s.pt.Keys && ForkedChild(s).pt.Keys == s.pt.Keys
    ensures forall v | v in s.pt :: ForkedParent(s).pt[v].ppn == s.pt[v].ppn && ForkedChild(s).pt[v].ppn == s.pt[v].ppn
  {
    hide Find, AreasOk;
    AllKnown(s, |s.areas|);
    var a, b := ForkedParent(s), ForkedChild(s);
    forall v ensures PageOk(a.areas, a.pt, v) && PageOk(b.areas, b.pt, v) {
      assert PageOk(s.areas, s.pt, v);
    }
  }

  /** What a fork leaves: the same areas on both sides, and on every mapped page the same frame and U. A private page
      is writable on neither side; a shared one is writable on both exactly as its area allows. */
  lemma ForkExactly(s: Space, v: Vpn)
    requires SpaceOk(s)
    ensures var p, c := ForkedParent(s), ForkedChild(s);
            && p.areas == c.areas == s.areas
            && (v in p.pt <==> v in s.pt) && (v in c.pt <==> v in s.pt)
            && (v in s.pt ==>
                  && p.pt[v].ppn == c.pt[v].ppn == s.pt[v].ppn && p.pt[v].u == c.pt[v].u == s.pt[v].u
                  && exists a | a in s.areas :: && a.start <= v < a.end
                                                && p.pt[v].w == c.pt[v].w == (a.kind.Shared? && a.perm.w))
  {
    hide AreasOk;
    AllKnown(s, |s.areas|);
    assert PageOk(s.areas, s.pt, v);
    if v in s.pt { assert AreaOf(s, v) in s.areas && In(AreaOf(s, v), v); }
  }

  lemma ForkedRefs(s: Space, pool: Pool, p: Ppn)
    requires HasFrames(s, pool)
    ensures Refs(ForkedPool(s, pool), p) == Refs(pool, p) + Count(s.pt, p)
    ensures ForkedPool(s, pool) == pool.(refs := ForkedPool(s, pool).refs)
  {
    var m := Mappings(s.pt, p);
    assert s.pt.Keys * m == m;
    if p !in pool.refs { assert m == {}; }
  }
}
