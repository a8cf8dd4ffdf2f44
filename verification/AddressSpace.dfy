/** User address spaces: areas with the frames they track, and the page table. */
module AddressSpaces {
  import opened Collections
  import opened Frames

  type Vpn = nat

  /** The three-level page table tells 2^27 pages apart. */
  const VPN_LIMIT: nat := 0x800_0000

  datatype Perm = Perm(r: bool, w: bool, x: bool, u: bool)
  /** A valid leaf entry: on this machine only the W and U flags are kept. */
  datatype Pte = Pte(ppn: Ppn, w: bool, u: bool)
  type PageMap = map<Vpn, Pte>

  datatype Kind = Private | Shared
  datatype AreaType = Kernel | ElfSegment | Heap | Stack | MmapAnon | MmapFile | Shm | Other
  datatype MmapMeta = MmapMeta(shared: bool, fileBacked: bool, fileWritable: bool, mapLocked: bool)

  datatype MapArea = MapArea(start: Vpn, end: Vpn, frames: map<Vpn, Ppn>, perm: Perm, kind: Kind,
                             areaType: AreaType, lazy: bool, meta: Option<MmapMeta>)

  datatype Space = Space(areas: seq<MapArea>, pt: PageMap)

  predicate In(a: MapArea, v: Vpn) {
    a.start <= v < a.end
  }

  /** The first area, from index `k` on, that contains `v`; the number of areas if there is none. */
  function FindFrom(areas: seq<MapArea>, v: Vpn, k: nat): (i: nat)
    requires k <= |areas|
    ensures k <= i <= |areas| && (i < |areas| ==> In(areas[i], v))
    ensures forall j | k <= j < i :: !In(areas[j], v)
    decreases |areas| - k
  {
    if k == |areas| || In(areas[k], v) then k else FindFrom(areas, v, k + 1)
  }

  function Find(areas: seq<MapArea>, v: Vpn): (i: nat)
    ensures i <= |areas| && (i < |areas| ==> In(areas[i], v))
    ensures forall j | 0 <= j < i :: !In(areas[j], v)
  {
    FindFrom(areas, v, 0)
  }

  /** The first lazy area that contains `v`. */
  function FindLazy(areas: seq<MapArea>, v: Vpn, k: nat): (i: nat)
    requires k <= |areas|
    ensures k <= i <= |areas| && (i < |areas| ==> areas[i].lazy && In(areas[i], v))
    ensures forall j | k <= j < i :: !(areas[j].lazy && In(areas[j], v))
    decreases |areas| - k
  {
    if k == |areas| || (areas[k].lazy && In(areas[k], v)) then k else FindLazy(areas, v, k + 1)
  }

  // ---------- the bookkeeping invariant ----------

  ghost predicate Disjoint(areas: seq<MapArea>) {
    forall i, j, v | 0 <= i < j < |areas| && In(areas[i], v) :: !In(areas[j], v)
  }

  ghost predicate AreaOk(a: MapArea) {
    a.start <= a.end <= VPN_LIMIT && forall v | v in a.frames :: In(a, v)
  }

  /** An entry never grants more than its area; a shared area's entries grant exactly as much. */
  predicate FlagsOk(a: MapArea, e: Pte) {
    && e.u == a.perm.u
    && (e.w ==> a.perm.w)
    && (a.kind.Shared? ==> e.w == a.perm.w)
  }

  /** Page `v` has a valid entry exactly when its area tracks a frame for it, and the entry is for that frame. */
  ghost predicate PageOk(areas: seq<MapArea>, pt: PageMap, v: Vpn) {
    var i := Find(areas, v);
    if i == |areas| then v !in pt
    else (v in pt <==> v in areas[i].frames)
         && (v in pt ==> pt[v].ppn == areas[i].frames[v] && FlagsOk(areas[i], pt[v]))
  }

  ghost predicate AreasOk(areas: seq<MapArea>) {
    (forall i | 0 <= i < |areas| :: AreaOk(areas[i])) && Disjoint(areas)
  }

  /** Areas are page-disjoint, frames lie in their area, and the valid entries are exactly the tracked pages,
      with the tracked frames. */
  ghost predicate SpaceOk(s: Space) {
    AreasOk(s.areas) && forall v :: PageOk(s.areas, s.pt, v)
  }

  lemma FindUnique(areas: seq<MapArea>, v: Vpn, i: nat)
    requires Disjoint(areas) && i < |areas| && In(areas[i], v)
    ensures Find(areas, v) == i
  {
    var j := Find(areas, v);
    if j < i { assert In(areas[j], v); }
  }

  /** The area of a mapped page. */
  lemma OwnerOf(s: Space, v: Vpn)
    requires SpaceOk(s) && v in s.pt
    ensures var i := Find(s.areas, v);
            && i < |s.areas| && In(s.areas[i], v) && v in s.areas[i].frames
            && s.pt[v].ppn == s.areas[i].frames[v] && FlagsOk(s.areas[i], s.pt[v])
  {
    hide Find;
    assert PageOk(s.areas, s.pt, v);
  }

  /** A page of no area is not mapped. */
  lemma NoOwner(s: Space, v: Vpn)
    requires SpaceOk(s) && Find(s.areas, v) == |s.areas|
    ensures v !in s.pt
  {
    hide Find;
    assert PageOk(s.areas, s.pt, v);
  }

  // ---------- counting mappings ----------

  ghost function Mappings(pt: PageMap, p: Ppn): (vs: set<Vpn>) {
    set v | v in pt && pt[v].ppn == p
  }

  ghost function Count(pt: PageMap, p: Ppn): (n: nat) {
    |Mappings(pt, p)|
  }

  lemma MappingsPut(pt: PageMap, v: Vpn, e: Pte, p: Ppn)
    ensures Mappings(pt[v := e], p) == Mappings(pt, p) - {v} + if e.ppn == p then {v} else {}
  {
  }

  lemma CountPut(pt: PageMap, v: Vpn, e: Pte, p: Ppn)
    ensures Count(pt[v := e], p) ==
            Count(pt, p) - (if v in pt && pt[v].ppn == p then 1 else 0) + (if e.ppn == p then 1 else 0)
  {
    MappingsPut(pt, v, e, p);
    RemoveOne(Mappings(pt, p), v);
  }

  lemma SameFramesSameCount(a: PageMap, b: PageMap, p: Ppn)
    requires a.Keys == b.Keys && forall v | v in a :: a[v].ppn == b[v].ppn
    ensures Count(a, p) == Count(b, p)
  {
    forall v ensures v in Mappings(a, p) <==> v in Mappings(b, p) {
      assert v in a <==> v in b.Keys;
    }
    assert Mappings(a, p) == Mappings(b, p);
  }

  lemma RemoveOne(a: set<Vpn>, v: Vpn)
    ensures |a - {v}| == |a| - if v in a then 1 else 0
  {
    if v !in a { assert a - {v} == a; }
  }

  lemma CountRemove(pt: PageMap, v: Vpn, p: Ppn)
    requires v in pt
    ensures Count(pt - {v}, p) == Count(pt, p) - (if pt[v].ppn == p then 1 else 0)
  {
    var rest := Mappings(pt, p) - {v};
    assert Mappings(pt, p) == rest + (if pt[v].ppn == p then {v} else {});
    assert Mappings(pt - {v}, p) == rest;
  }

  lemma CountTwo(pt: PageMap, v: Vpn, u: Vpn)
    requires v in pt
    ensures Count(pt, pt[v].ppn) >= 1
    ensures u in pt && u != v && pt[u].ppn == pt[v].ppn ==> Count(pt, pt[v].ppn) >= 2
  {
    var p := pt[v].ppn;
    assert Mappings(pt, p) == {v} + (Mappings(pt, p) - {v});
    if u in pt && u != v && pt[u].ppn == p {
      assert Mappings(pt, p) == {v} + ({u} + (Mappings(pt, p) - {v} - {u}));
    }
  }

  // ---------- page-level operations ----------

  datatype Outcome = Outcome(ok: bool, space: Space, pool: Pool)

  function SetFrame(s: Space, i: nat, v: Vpn, e: Pte): (r: Space)
    requires i < |s.areas|
  {
    Space(s.areas[i := s.areas[i].(frames := s.areas[i].frames[v := e.ppn])], s.pt[v := e])
  }

  function SetFlags(s: Space, v: Vpn, w: bool): (r: Space)
    requires v in s.pt
  {
    s.(pt := s.pt[v := s.pt[v].(w := w)])
  }

  /** `handle_cow_fault`. */
  function CowFault(s: Space, pool: Pool, v: Vpn): (r: Outcome) {
    var i := Find(s.areas, v);
    if i == |s.areas| || !s.areas[i].perm.w || v !in s.pt || s.pt[v].w then Outcome(false, s, pool)
    else
      var a, e := s.areas[i], s.pt[v];
      if a.kind.Shared? then Outcome(true, SetFlags(s, v, true), pool)
      else if v !in a.frames then Outcome(false, s, pool)
      else if Refs(pool, a.frames[v]) == 1 then Outcome(true, SetFlags(s, v, true), pool)
      else if Exhausted(pool) then Outcome(false, s, pool)
      else
        var new_ := NextFrame(pool);
        var copied := WritePage(AllocFrame(pool), new_, Contents(AllocFrame(pool), e.ppn));
        Outcome(true, SetFrame(s, i, v, Pte(new_, true, e.u)), DropRef(copied, a.frames[v]))
  }

  /** `handle_demand_fault` on anonymous memory. */
  function DemandFault(s: Space, pool: Pool, v: Vpn): (r: Outcome) {
    var i := FindLazy(s.areas, v, 0);
    if i == |s.areas| || v in s.pt || Exhausted(pool) then Outcome(false, s, pool)
    else Outcome(true, SetFrame(s, i, v, Pte(NextFrame(pool), s.areas[i].perm.w, s.areas[i].perm.u)), AllocFrame(pool))
  }

  /** Demand faults on the pages `lo..hi`, one after the other. */
  function DemandAll(s: Space, pool: Pool, lo: Vpn, hi: Vpn): (r: Outcome)
    decreases hi - lo
  {
    if hi <= lo then Outcome(true, s, pool)
    else var r := DemandAll(s, pool, lo, hi - 1); DemandFault(r.space, r.pool, hi - 1).(ok := true)
  }

  // ---------- what they keep ----------

  lemma FindSameRanges(areas: seq<MapArea>, bs: seq<MapArea>, v: Vpn)
    requires |bs| == |areas| && forall i | 0 <= i < |areas| :: bs[i].start == areas[i].start && bs[i].end == areas[i].end
    ensures Find(bs, v) == Find(areas, v)
  {
    hide Find;
    var i, j := Find(areas, v), Find(bs, v);
    assert i < |areas| ==> In(bs[i], v);
    assert j < |areas| ==> In(areas[j], v);
  }

  lemma SameRangesOk(areas: seq<MapArea>, bs: seq<MapArea>)
    requires AreasOk(areas) && |bs| == |areas|
    requires forall i | 0 <= i < |areas| :: bs[i].start == areas[i].start && bs[i].end == areas[i].end && AreaOk(bs[i])
    ensures AreasOk(bs)
  {
    forall i, j, v | 0 <= i < j < |bs| && In(bs[i], v) ensures !In(bs[j], v) {
      assert In(areas[i], v);
    }
  }

  /** Installing a frame for a page of area `i` keeps the invariant. */
  lemma SetFrameOk(s: Space, i: nat, v: Vpn, e: Pte)
    requires SpaceOk(s) && i < |s.areas| && In(s.areas[i], v) && FlagsOk(s.areas[i], e)
    ensures SpaceOk(SetFrame(s, i, v, e))
    ensures forall u :: Find(SetFrame(s, i, v, e).areas, u) == Find(s.areas, u)
  {
    hide Find, Disjoint;
    var r := SetFrame(s, i, v, e);
    FindUnique(s.areas, v, i);
    SameRangesOk(s.areas, r.areas);
    forall u ensures Find(r.areas, u) == Find(s.areas, u) && PageOk(r.areas, r.pt, u) {
      FindSameRanges(s.areas, r.areas, u);
      assert PageOk(s.areas, s.pt, u);
    }
  }

  /** Changing the W flag of an entry within its area's permission keeps the invariant. */
  lemma SetFlagsOk(s: Space, v: Vpn, w: bool)
    requires SpaceOk(s) && v in s.pt
    requires Find(s.areas, v) < |s.areas| && FlagsOk(s.areas[Find(s.areas, v)], s.pt[v].(w := w))
    ensures SpaceOk(SetFlags(s, v, w))
  {
    hide Find, AreasOk;
    var r := SetFlags(s, v, w);
    forall u ensures PageOk(r.areas, r.pt, u) {
      assert PageOk(s.areas, s.pt, u);
    }
  }
}
