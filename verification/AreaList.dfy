/** Lists of areas, page by page: what unmapping, protecting, adding and extending do to every single page. */
module AreaLists {
  import opened Collections
  import opened Frames
  import opened AddressSpaces

  // ---------- areas by page ----------

  /** The area of page `v`. */
  function AreaAt(areas: seq<MapArea>, v: Vpn): (r: Option<MapArea>)
    ensures r.Some? ==> In(r.value, v)
  {
    var i := Find(areas, v);
    if i < |areas| then Some(areas[i]) else None
  }

  lemma AreaAtIndex(areas: seq<MapArea>, v: Vpn, i: nat)
    requires Disjoint(areas) && i < |areas| && In(areas[i], v)
    ensures AreaAt(areas, v) == Some(areas[i])
  {
    hide Find;
    FindUnique(areas, v, i);
  }

  lemma AreaAtConcat(a: seq<MapArea>, b: seq<MapArea>, v: Vpn)
    ensures AreaAt(a + b, v) == if AreaAt(a, v).Some? then AreaAt(a, v) else AreaAt(b, v)
  {
    hide Find;
    var c := a + b;
    assert forall n | 0 <= n < |a| :: c[n] == a[n];
    assert forall n | 0 <= n < |b| :: c[|a| + n] == b[n];
    var i, j, k := Find(a, v), Find(b, v), Find(c, v);
    assert i < |a| ==> In(c[i], v);
    assert j < |b| ==> In(c[|a| + j], v);
    assert k >= |a| && k < |c| ==> c[k] == b[k - |a|];
  }

  lemma AreaAtSingle(a: MapArea, v: Vpn)
    ensures AreaAt([a], v) == if In(a, v) then Some(a) else None
  {
  }

  /** `PageOk`, by area. */
  lemma PageOkAt(areas: seq<MapArea>, pt: PageMap, v: Vpn)
    ensures PageOk(areas, pt, v) <==>
            match AreaAt(areas, v)
            case None => v !in pt
            case Some(a) => (v in pt <==> v in a.frames) && (v in pt ==> pt[v].ppn == a.frames[v] && FlagsOk(a, pt[v]))
  {
    hide Find;
  }

  // ---------- accounting ----------

  /** References move with mappings: what a frame lost in references it lost in mapped pages. */
  ghost predicate Ledger(pool: Pool, pt: PageMap, pool': Pool, pt': PageMap) {
    forall p :: Refs(pool', p) + Count(pt, p) == Refs(pool, p) + Count(pt', p)
  }

  /** Every mapped page has its reference. */
  ghost predicate Backed(pool: Pool, pt: PageMap) {
    PoolOk(pool) && forall p :: Refs(pool, p) >= Count(pt, p)
  }

  lemma LedgerTrans(pool: Pool, pt: PageMap, pool1: Pool, pt1: PageMap, pool2: Pool, pt2: PageMap)
    requires Ledger(pool, pt, pool1, pt1) && Ledger(pool1, pt1, pool2, pt2)
    ensures Ledger(pool, pt, pool2, pt2)
  {
    hide Count, Refs;
  }

  lemma DropLedger(pool: Pool, pt: PageMap, v: Vpn)
    requires Backed(pool, pt) && v in pt
    ensures pt[v].ppn in pool.refs
    ensures Backed(DropRef(pool, pt[v].ppn), pt - {v}) && Ledger(pool, pt, DropRef(pool, pt[v].ppn), pt - {v})
    ensures DropRef(pool, pt[v].ppn).mem == pool.mem
  {
    hide Count, DropRef, PoolOk;
    CountTwo(pt, v, v);
    assert Refs(pool, pt[v].ppn) >= 1;
    DropKeeps(pool, pt[v].ppn);
    forall p ensures Count(pt - {v}, p) == Count(pt, p) - (if pt[v].ppn == p then 1 else 0) { CountRemove(pt, v, p); }
  }

  lemma AllocLedger(pool: Pool, pt: PageMap, v: Vpn, w: bool, u: bool)
    requires Backed(pool, pt) && v !in pt && !Exhausted(pool)
    ensures var r, pt' := AllocFrame(pool), pt[v := Pte(NextFrame(pool), w, u)];
            Backed(r, pt') && Ledger(pool, pt, r, pt')
  {
    hide Count, AllocFrame, PoolOk, Contents;
    AllocFresh(pool);
    var pt' := pt[v := Pte(NextFrame(pool), w, u)];
    forall p ensures Count(pt', p) == Count(pt, p) + (if NextFrame(pool) == p then 1 else 0) {
      CountPut(pt, v, Pte(NextFrame(pool), w, u), p);
    }
  }

  // ---------- one page ----------

  /** `unmap_one` on page `v` of area `a`. */
  function UnmapPage(a: MapArea, pt: PageMap, pool: Pool, v: Vpn): (r: (MapArea, PageMap, Pool)) {
    var had := v in a.frames;
    (if had then a.(frames := a.frames - {v}) else a,
     if (had || !a.lazy) && v in pt then pt - {v} else pt,
     if had then DropRef(pool, a.frames[v]) else pool)
  }

  /** In a consistent space `unmap_one` removes exactly the tracked page. */
  lemma UnmapPageOk(pre: seq<MapArea>, a: MapArea, post: seq<MapArea>, pt: PageMap, pool: Pool, v: Vpn)
    requires SpaceOk(Space(pre + [a] + post, pt)) && Backed(pool, pt) && In(a, v)
    ensures var (b, pt', pool') := UnmapPage(a, pt, pool, v);
            && SpaceOk(Space(pre + [b] + post, pt')) && b == a.(frames := a.frames - {v}) && pt' == pt - {v}
            && Backed(pool', pt') && Ledger(pool, pt, pool', pt') && pool'.mem == pool.mem
  {
    hide Find, Disjoint, Ledger, Backed, DropRef;
    var areas := pre + [a] + post;
    var i := |pre|;
    assert areas[i] == a;
    FindUnique(areas, v, i);
    assert PageOk(areas, pt, v);
    var (b, pt', pool') := UnmapPage(a, pt, pool, v);
    var bs := pre + [b] + post;
    if v in a.frames {
      DropLedger(pool, pt, v);
    } else {
      assert pt - {v} == pt && a.frames - {v} == a.frames;
      LedgerRefl(pool, pt);
    }
    assert AreaOk(a) && AreaOk(b);
    forall j | 0 <= j < |areas| ensures bs[j].start == areas[j].start && bs[j].end == areas[j].end && AreaOk(bs[j]) {
      assert j != i ==> bs[j] == areas[j];
    }
    SameRangesOk(areas, bs);
    forall u ensures PageOk(bs, pt', u) {
      assert PageOk(areas, pt, u);
      FindSameRanges(areas, bs, u);
      var j := Find(areas, u);
      if j < |areas| && j != i { assert bs[j] == areas[j]; }
    }
  }

  lemma LedgerRefl(pool: Pool, pt: PageMap)
    ensures Ledger(pool, pt, pool, pt)
  {
  }

  // ---------- replacing one area by parts of it ----------

  /** Every area of `mid` lies within `a`. */
  ghost predicate Within(mid: seq<MapArea>, a: MapArea) {
    forall j, v | 0 <= j < |mid| && In(mid[j], v) :: In(a, v)
  }

  lemma AreaAtMid(pre: seq<MapArea>, a: MapArea, mid: seq<MapArea>, post: seq<MapArea>, v: Vpn)
    requires Disjoint(pre + [a] + post) && Within(mid, a)
    ensures AreaAt(pre + mid + post, v) == if In(a, v) then AreaAt(mid, v) else AreaAt(pre + [a] + post, v)
  {
    hide Find, AreaAt;
    var areas := pre + [a] + post;
    AreaAtConcat(pre + mid, post, v);
    AreaAtConcat(pre, mid, v);
    AreaAtConcat(pre + [a], post, v);
    AreaAtConcat(pre, [a], v);
    AreaAtSingle(a, v);
    if In(a, v) {
      assert areas[|pre|] == a;
      OnlyAt(pre, a, post, v);
    } else {
      NotIn(mid, a, v);
    }
  }

  lemma OnlyAt(pre: seq<MapArea>, a: MapArea, post: seq<MapArea>, v: Vpn)
    requires Disjoint(pre + [a] + post) && In(a, v)
    ensures AreaAt(pre, v).None? && AreaAt(post, v).None?
  {
    hide Find;
    var areas := pre + [a] + post;
    var i, j := Find(pre, v), Find(post, v);
    assert areas[|pre|] == a;
    assert forall n | 0 <= n < |pre| :: areas[n] == pre[n];
    assert forall n | 0 <= n < |post| :: areas[|pre| + 1 + n] == post[n];
  }

  lemma NotIn(mid: seq<MapArea>, a: MapArea, v: Vpn)
    requires Within(mid, a) && !In(a, v)
    ensures AreaAt(mid, v).None?
  {
    hide Find;
  }

  lemma MidAreasOk(pre: seq<MapArea>, a: MapArea, mid: seq<MapArea>, post: seq<MapArea>)
    requires AreasOk(pre + [a] + post) && AreasOk(mid) && Within(mid, a)
    ensures AreasOk(pre + mid + post)
  {
    hide AreaOk;
    var old_, new_ := pre + [a] + post, pre + mid + post;
    var n, m := |pre|, |mid|;
    assert old_[n] == a;
    forall i | 0 <= i < |new_| ensures AreaOk(new_[i]) {
      if i < n { assert new_[i] == old_[i]; }
      else if i < n + m { assert new_[i] == mid[i - n]; }
      else { assert new_[i] == old_[i - m + 1]; }
    }
    forall i, j, v | 0 <= i < j < |new_| && In(new_[i], v) ensures !In(new_[j], v) {
      var i' := if i < n then i else if i < n + m then n else i - m + 1;
      var j' := if j < n then j else if j < n + m then n else j - m + 1;
      assert In(old_[i'], v);
      if i' == j' { assert new_[i] == mid[i - n] && new_[j] == mid[j - n]; }
      else if n <= j < n + m { assert new_[j] == mid[j - n]; }
      else { assert new_[j] == old_[j']; }
    }
  }

  /** Replacing an area by consistent parts of it, changing no page outside it, keeps the invariant. */
  lemma ReplaceArea(pre: seq<MapArea>, a: MapArea, mid: seq<MapArea>, post: seq<MapArea>, pt: PageMap, pt': PageMap)
    requires SpaceOk(Space(pre + [a] + post, pt)) && AreasOk(mid) && Within(mid, a)
    requires forall v | In(a, v) :: PageOk(mid, pt', v)
    requires forall v | !In(a, v) :: (v in pt' <==> v in pt) && (v in pt ==> pt'[v] == pt[v])
    ensures SpaceOk(Space(pre + mid + post, pt'))
    ensures forall v :: AreaAt(pre + mid + post, v) == if In(a, v) then AreaAt(mid, v) else AreaAt(pre + [a] + post, v)
  {
    hide AreaAt, AreasOk, PageOk, In;
    MidAreasOk(pre, a, mid, post);
    forall v
      ensures PageOk(pre + mid + post, pt', v)
      ensures AreaAt(pre + mid + post, v) == if In(a, v) then AreaAt(mid, v) else AreaAt(pre + [a] + post, v)
    {
      AreasDisjoint(pre + [a] + post);
      AreaAtMid(pre, a, mid, post, v);
      PageOkAt(pre + mid + post, pt', v);
      PageOkAt(mid, pt', v);
      assert PageOk(pre + [a] + post, pt, v);
      PageOkAt(pre + [a] + post, pt, v);
    }
  }

  lemma AreasDisjoint(areas: seq<MapArea>)
    requires AreasOk(areas)
    ensures Disjoint(areas)
  {
  }

  // ---------- unmap_range, page by page ----------

  predicate Protected(a: MapArea) {
    a.areaType.Heap? || a.areaType.Stack? || a.areaType.ElfSegment?
  }

  function Keep(frames: map<Vpn, Ppn>, lo: Vpn, hi: Vpn): (r: map<Vpn, Ppn>) {
    map v | v in frames && lo <= v < hi :: frames[v]
  }

  /** Area `a` cut down to pages `lo..hi`. */
  function Trim(a: MapArea, lo: Vpn, hi: Vpn): (r: MapArea) {
    a.(start := lo, end := hi, frames := Keep(a.frames, lo, hi))
  }

  /** What `unmap_range` on `lo..hi` leaves at page `v` of area `a`: a hole in the middle also drops the tail. */
  function UnmapAt(a: MapArea, lo: Vpn, hi: Vpn, v: Vpn): (r: Option<MapArea>) {
    if Protected(a) || a.end <= lo || a.start >= hi then Some(a)
    else if a.start >= lo && a.end <= hi then None
    else if a.start >= lo then (if v >= hi then Some(Trim(a, hi, a.end)) else None)
    else (if v < lo then Some(Trim(a, a.start, lo)) else None)
  }

  /** The areas `unmap_range` puts in place of `a`. */
  function UnmapParts(a: MapArea, lo: Vpn, hi: Vpn): (r: seq<MapArea>) {
    if Protected(a) || a.end <= lo || a.start >= hi then [a]
    else if a.start >= lo && a.end <= hi then []
    else if a.start >= lo then [Trim(a, hi, a.end)]
    else [Trim(a, a.start, lo)]
  }

  lemma UnmapPartsAt(a: MapArea, lo: Vpn, hi: Vpn, v: Vpn)
    requires In(a, v) && lo < hi
    ensures AreaAt(UnmapParts(a, lo, hi), v) == UnmapAt(a, lo, hi, v)
  {
    hide Find;
    if UnmapParts(a, lo, hi) != [] { AreaAtSingle(UnmapParts(a, lo, hi)[0], v); }
  }

  lemma UnmapPartsOk(a: MapArea, lo: Vpn, hi: Vpn)
    requires AreaOk(a) && lo < hi
    ensures AreasOk(UnmapParts(a, lo, hi)) && Within(UnmapParts(a, lo, hi), a)
  {
  }

  /** The page table after the pages of `a` that lose their area are gone. */
  function UnmapTable(a: MapArea, pt: PageMap, lo: Vpn, hi: Vpn): (r: PageMap) {
    map v | v in pt && (In(a, v) ==> UnmapAt(a, lo, hi, v).Some?) :: pt[v]
  }

  /** One round of the loop over areas. */
  lemma UnmapAreaOk(pre: seq<MapArea>, a: MapArea, post: seq<MapArea>, pt: PageMap, lo: Vpn, hi: Vpn)
    requires SpaceOk(Space(pre + [a] + post, pt)) && lo < hi
    ensures SpaceOk(Space(pre + UnmapParts(a, lo, hi) + post, UnmapTable(a, pt, lo, hi)))
    ensures forall v :: AreaAt(pre + UnmapParts(a, lo, hi) + post, v) ==
                        if In(a, v) then UnmapAt(a, lo, hi, v) else AreaAt(pre + [a] + post, v)
  {
    hide Find, Disjoint, AreaAt;
    var areas, parts, pt' := pre + [a] + post, UnmapParts(a, lo, hi), UnmapTable(a, pt, lo, hi);
    assert areas[|pre|] == a;
    UnmapPartsOk(a, lo, hi);
    forall v | In(a, v) ensures PageOk(parts, pt', v) && AreaAt(parts, v) == UnmapAt(a, lo, hi, v) {
      assert PageOk(areas, pt, v);
      FindUnique(areas, v, |pre|);
      UnmapPartsAt(a, lo, hi, v);
      PageOkAt(parts, pt', v);
    }
    ReplaceArea(pre, a, parts, post, pt, pt');
  }

  function UnmappedAt(areas: seq<MapArea>, lo: Vpn, hi: Vpn, v: Vpn): (r: Option<MapArea>) {
    match AreaAt(areas, v)
    case None => None
    case Some(a) => UnmapAt(a, lo, hi, v)
  }

  /** The same, for the first `k` areas only. */
  function PartlyUnmapped(areas: seq<MapArea>, k: nat, lo: Vpn, hi: Vpn, v: Vpn): (r: Option<MapArea>) {
    if Find(areas, v) < k then UnmappedAt(areas, lo, hi, v) else AreaAt(areas, v)
  }

  lemma PartlyNone(areas: seq<MapArea>, lo: Vpn, hi: Vpn, v: Vpn)
    ensures PartlyUnmapped(areas, 0, lo, hi, v) == AreaAt(areas, v)
  {
  }

  lemma PartlyAll(areas: seq<MapArea>, lo: Vpn, hi: Vpn, v: Vpn)
    ensures PartlyUnmapped(areas, |areas|, lo, hi, v) == UnmappedAt(areas, lo, hi, v)
  {
  }

  lemma PartlyOneMore(areas: seq<MapArea>, k: nat, lo: Vpn, hi: Vpn, v: Vpn)
    requires Disjoint(areas) && k < |areas|
    ensures PartlyUnmapped(areas, k + 1, lo, hi, v) ==
            if In(areas[k], v) then UnmapAt(areas[k], lo, hi, v) else PartlyUnmapped(areas, k, lo, hi, v)
  {
    hide Find, UnmapAt;
    if In(areas[k], v) { FindUnique(areas, v, k); }
  }

  lemma SpaceDisjoint(s: Space)
    requires SpaceOk(s)
    ensures Disjoint(s.areas)
  {
  }

  lemma MappedHasArea(s: Space, v: Vpn)
    requires SpaceOk(s) && v in s.pt
    ensures AreaAt(s.areas, v).Some?
  {
    hide Find;
    assert PageOk(s.areas, s.pt, v);
  }

  /** A table that lost exactly the pages of area `idx` with no area left is `UnmapTable`. */
  lemma UnmapTableAt(s: Space, idx: nat, pt: PageMap, lo: Vpn, hi: Vpn)
    requires idx < |s.areas| && pt.Keys <= s.pt.Keys && forall v | v in pt :: pt[v] == s.pt[v]
    requires forall v | v in s.pt ::
               v in pt <==> (In(s.areas[idx], v) ==> UnmapAt(s.areas[idx], lo, hi, v).Some?)
    ensures pt == UnmapTable(s.areas[idx], s.pt, lo, hi)
  {
    hide UnmapAt;
    var r := UnmapTable(s.areas[idx], s.pt, lo, hi);
    assert pt.Keys == r.Keys;
  }

  /** `s` is `s0` with the first `k` areas unmapped from. */
  ghost predicate Unmapping(s0: Space, s: Space, k: nat, lo: Vpn, hi: Vpn) {
    forall v ::
      && AreaAt(s.areas, v) == PartlyUnmapped(s0.areas, k, lo, hi, v)
      && (v in s.pt <==> v in s0.pt && AreaAt(s.areas, v).Some?)
      && (v in s.pt ==> s.pt[v] == s0.pt[v])
  }

  lemma UnmappingStart(s: Space, lo: Vpn, hi: Vpn)
    requires SpaceOk(s)
    ensures Unmapping(s, s, 0, lo, hi)
  {
    hide AreaAt, PartlyUnmapped, SpaceOk;
    forall v ensures AreaAt(s.areas, v) == PartlyUnmapped(s.areas, 0, lo, hi, v) && (v in s.pt ==> AreaAt(s.areas, v).Some?) {
      PartlyNone(s.areas, lo, hi, v);
      if v in s.pt { MappedHasArea(s, v); }
    }
  }

  lemma UnmappingStep(s0: Space, s: Space, k: nat, a: MapArea, t: Space, lo: Vpn, hi: Vpn)
    requires Unmapping(s0, s, k, lo, hi) && Disjoint(s0.areas) && k < |s0.areas| && a == s0.areas[k]
    requires forall v :: AreaAt(t.areas, v) == if In(a, v) then UnmapAt(a, lo, hi, v) else AreaAt(s.areas, v)
    requires t.pt == UnmapTable(a, s.pt, lo, hi)
    ensures Unmapping(s0, t, k + 1, lo, hi)
  {
    hide AreaAt, PartlyUnmapped, UnmapAt, In, Disjoint;
    forall v
      ensures AreaAt(t.areas, v) == PartlyUnmapped(s0.areas, k + 1, lo, hi, v)
      ensures v in t.pt <==> v in s0.pt && AreaAt(t.areas, v).Some?
    {
      PartlyOneMore(s0.areas, k, lo, hi, v);
      if In(a, v) { InitiallyPresent(s0.areas, k, lo, hi, v); }
    }
  }

  /** A page still waiting for its area has that area. */
  lemma InitiallyPresent(areas: seq<MapArea>, k: nat, lo: Vpn, hi: Vpn, v: Vpn)
    requires Disjoint(areas) && k < |areas| && In(areas[k], v)
    ensures PartlyUnmapped(areas, k, lo, hi, v) == Some(areas[k])
  {
    hide Find;
    FindUnique(areas, v, k);
  }

  /** A hole strictly inside an area that is neither heap, stack nor ELF segment. */
  predicate MiddleHole(a: MapArea, lo: Vpn, hi: Vpn) {
    a.areaType !in {Heap, Stack, ElfSegment} && a.start < lo && hi < a.end
  }

  /** Pages outside the range survive exactly when the range is no middle hole of an area. */
  lemma UnmapKeepsOutsideExactly(areas: seq<MapArea>, lo: Vpn, hi: Vpn)
    requires Disjoint(areas) && lo < hi
    ensures (forall v: Vpn | !(lo <= v < hi) :: AreaAt(areas, v).Some? ==> UnmappedAt(areas, lo, hi, v).Some?) <==>
            (forall i | 0 <= i < |areas| :: !MiddleHole(areas[i], lo, hi))
  {
    hide Find;
    if i :| 0 <= i < |areas| && MiddleHole(areas[i], lo, hi) {
      AreaAtIndex(areas, hi, i);
      assert UnmappedAt(areas, lo, hi, hi).None?;
    }
  }

  /** Inside the range, exactly the pages of heap, stack and ELF segments survive. */
  lemma UnmapRemovesInsideExactly(areas: seq<MapArea>, lo: Vpn, hi: Vpn, v: Vpn)
    requires lo <= v < hi
    ensures UnmappedAt(areas, lo, hi, v).Some? <==>
            AreaAt(areas, v).Some? && AreaAt(areas, v).value.areaType in {Heap, Stack, ElfSegment}
  {
    hide Find;
  }

  /** `b` is a piece of `a` with page `v`: the same kind of area, with the frames `a` has for its pages. */
  ghost predicate PieceOf(a: MapArea, b: MapArea, v: Vpn) {
    && a.start <= b.start <= v < b.end <= a.end
    && b.kind == a.kind && b.areaType == a.areaType && b.lazy == a.lazy && b.meta == a.meta
    && (forall u :: u in b.frames <==> u in a.frames && b.start <= u < b.end)
    && (forall u | u in b.frames :: b.frames[u] == a.frames[u])
  }

  /** A page that survives `unmap_range` stays in a piece of its area, with its permission. */
  lemma UnmapKeepsArea(areas: seq<MapArea>, lo: Vpn, hi: Vpn, v: Vpn)
    requires AreasOk(areas) && lo < hi && UnmappedAt(areas, lo, hi, v).Some?
    ensures AreaAt(areas, v).Some?
    ensures var a, b := AreaAt(areas, v).value, UnmappedAt(areas, lo, hi, v).value;
            PieceOf(a, b, v) && b.perm == a.perm
  {
    hide Find;
    assert AreaOk(AreaAt(areas, v).value);
  }

  // ---------- change_protection, page by page ----------

  /** What `change_protection` on `lo..hi` makes of page `v` of area `a`. */
  function ProtectAt(a: MapArea, lo: Vpn, hi: Vpn, perm: Perm, v: Vpn): (r: MapArea) {
    var ms, me := if a.start < lo then lo else a.start, if a.end < hi then a.end else hi;
    if a.end <= lo || a.start >= hi then a
    else if v < ms then Trim(a, a.start, ms)
    else if v < me then (if ms == a.start && me == a.end then a else Trim(a, ms, me)).(perm := perm)
    else Trim(a, me, a.end)
  }

  /** The areas it puts in place of `a`. */
  function ProtectParts(a: MapArea, lo: Vpn, hi: Vpn, perm: Perm): (r: seq<MapArea>) {
    var ms, me := if a.start < lo then lo else a.start, if a.end < hi then a.end else hi;
    if a.end <= lo || a.start >= hi then [a]
    else if ms == a.start && me == a.end then [a.(perm := perm)]
    else if ms == a.start then [Trim(a, ms, me).(perm := perm), Trim(a, me, a.end)]
    else if me == a.end then [Trim(a, a.start, ms), Trim(a, ms, me).(perm := perm)]
    else [Trim(a, a.start, ms), Trim(a, ms, me).(perm := perm), Trim(a, me, a.end)]
  }

  function Reflag(e: Pte, perm: Perm): (r: Pte) {
    e.(w := perm.w, u := perm.u)
  }

  /** Pages `lo..hi` with the flags of `perm`. */
  function ReflagRange(pt: PageMap, lo: Vpn, hi: Vpn, perm: Perm): (r: PageMap) {
    map v | v in pt :: if lo <= v < hi then Reflag(pt[v], perm) else pt[v]
  }

  /** `apply_perm` on the pages of `a` in `lo..hi`. */
  function ProtectTable(a: MapArea, pt: PageMap, lo: Vpn, hi: Vpn, perm: Perm): (r: PageMap) {
    ReflagRange(pt, if a.start < lo then lo else a.start, if a.end < hi then a.end else hi, perm)
  }

  lemma ProtectPartsAt(a: MapArea, lo: Vpn, hi: Vpn, perm: Perm, v: Vpn)
    requires In(a, v) && lo < hi
    ensures AreaAt(ProtectParts(a, lo, hi, perm), v) == Some(ProtectAt(a, lo, hi, perm, v))
  {
    hide Find;
    var parts := ProtectParts(a, lo, hi, perm);
    var i := Find(parts, v);
    assert In(parts[0], v) || (|parts| > 1 && In(parts[1], v)) || (|parts| > 2 && In(parts[2], v));
    if i == 0 { } else if i == 1 { assert !In(parts[0], v); } else { assert !In(parts[0], v) && !In(parts[1], v); }
  }

  lemma ProtectPartsOk(a: MapArea, lo: Vpn, hi: Vpn, perm: Perm)
    requires AreaOk(a) && lo < hi
    ensures AreasOk(ProtectParts(a, lo, hi, perm)) && Within(ProtectParts(a, lo, hi, perm), a)
  {
  }

  /** One round of the loop over areas. */
  lemma ProtectAreaOk(pre: seq<MapArea>, a: MapArea, post: seq<MapArea>, pt: PageMap, lo: Vpn, hi: Vpn, perm: Perm)
    requires SpaceOk(Space(pre + [a] + post, pt)) && lo < hi
    ensures SpaceOk(Space(pre + ProtectParts(a, lo, hi, perm) + post, ProtectTable(a, pt, lo, hi, perm)))
    ensures forall v :: AreaAt(pre + ProtectParts(a, lo, hi, perm) + post, v) ==
                        if In(a, v) then Some(ProtectAt(a, lo, hi, perm, v)) else AreaAt(pre + [a] + post, v)
  {
    hide Find, Disjoint, AreaAt, ProtectAt, ProtectParts;
    var areas, parts, pt' := pre + [a] + post, ProtectParts(a, lo, hi, perm), ProtectTable(a, pt, lo, hi, perm);
    assert areas[|pre|] == a;
    ProtectPartsOk(a, lo, hi, perm);
    forall v | In(a, v) ensures PageOk(parts, pt', v) && AreaAt(parts, v) == Some(ProtectAt(a, lo, hi, perm, v)) {
      assert PageOk(areas, pt, v);
      FindUnique(areas, v, |pre|);
      ProtectPageOk(a, pt, lo, hi, perm, v);
    }
    ReplaceArea(pre, a, parts, post, pt, pt');
  }

  lemma ProtectPageOk(a: MapArea, pt: PageMap, lo: Vpn, hi: Vpn, perm: Perm, v: Vpn)
    requires In(a, v) && lo < hi
    requires (v in pt <==> v in a.frames) && (v in pt ==> pt[v].ppn == a.frames[v] && FlagsOk(a, pt[v]))
    ensures PageOk(ProtectParts(a, lo, hi, perm), ProtectTable(a, pt, lo, hi, perm), v)
    ensures AreaAt(ProtectParts(a, lo, hi, perm), v) == Some(ProtectAt(a, lo, hi, perm, v))
  {
    hide Find, ProtectParts;
    ProtectPartsAt(a, lo, hi, perm, v);
    PageOkAt(ProtectParts(a, lo, hi, perm), ProtectTable(a, pt, lo, hi, perm), v);
  }

  datatype ProtectError = Unmapped | AccessDenied

  /** A shared file mapping that may not be made writable. */
  predicate Denied(a: MapArea, lo: Vpn, hi: Vpn, perm: Perm) {
    && a.start < hi && a.end > lo
    && a.meta.Some? && a.meta.value.fileBacked && a.meta.value.shared && perm.w && !a.meta.value.fileWritable
  }

  ghost predicate Covered(areas: seq<MapArea>, lo: Vpn, hi: Vpn) {
    forall v | lo <= v < hi :: AreaAt(areas, v).Some?
  }

  function ProtectedAt(areas: seq<MapArea>, lo: Vpn, hi: Vpn, perm: Perm, v: Vpn): (r: Option<MapArea>) {
    match AreaAt(areas, v)
    case None => None
    case Some(a) => Some(ProtectAt(a, lo, hi, perm, v))
  }

  /** Every page keeps its area, or a piece of it, through `change_protection`: with the new permission inside the
      range, with the old one outside. */
  lemma ProtectKeepsArea(areas: seq<MapArea>, lo: Vpn, hi: Vpn, perm: Perm, v: Vpn)
    requires AreasOk(areas) && lo < hi
    ensures ProtectedAt(areas, lo, hi, perm, v).Some? <==> AreaAt(areas, v).Some?
    ensures AreaAt(areas, v).Some? ==>
              var a, b := AreaAt(areas, v).value, ProtectedAt(areas, lo, hi, perm, v).value;
              PieceOf(a, b, v) && b.perm == if lo <= v < hi then perm else a.perm
  {
    hide Find;
    if AreaAt(areas, v).Some? { assert AreaOk(AreaAt(areas, v).value); }
  }

  function PartlyProtected(areas: seq<MapArea>, k: nat, lo: Vpn, hi: Vpn, perm: Perm, v: Vpn): (r: Option<MapArea>) {
    if Find(areas, v) < k then ProtectedAt(areas, lo, hi, perm, v) else AreaAt(areas, v)
  }

  /** `s` is `s0` with the first `k` areas protected. */
  ghost predicate Protecting(s0: Space, s: Space, k: nat, lo: Vpn, hi: Vpn, perm: Perm) {
    forall v: Vpn ::
      && AreaAt(s.areas, v) == PartlyProtected(s0.areas, k, lo, hi, perm, v)
      && (v in s.pt <==> v in s0.pt)
      && (v in s.pt ==> s.pt[v] == if lo <= v < hi && Find(s0.areas, v) < k then Reflag(s0.pt[v], perm) else s0.pt[v])
  }

  lemma ProtectingStart(s: Space, lo: Vpn, hi: Vpn, perm: Perm)
    ensures Protecting(s, s, 0, lo, hi, perm)
  {
    hide Find, AreaAt;
  }

  lemma ProtectingStep(s0: Space, s: Space, k: nat, a: MapArea, t: Space, lo: Vpn, hi: Vpn, perm: Perm)
    requires Protecting(s0, s, k, lo, hi, perm) && Disjoint(s0.areas) && k < |s0.areas| && a == s0.areas[k]
    requires forall v :: AreaAt(t.areas, v) == if In(a, v) then Some(ProtectAt(a, lo, hi, perm, v)) else AreaAt(s.areas, v)
    requires t.pt == ProtectTable(a, s.pt, lo, hi, perm)
    ensures Protecting(s0, t, k + 1, lo, hi, perm)
  {
    hide Find, AreaAt, PartlyProtected, ProtectAt, Disjoint, Reflag;
    forall v: Vpn
      ensures AreaAt(t.areas, v) == PartlyProtected(s0.areas, k + 1, lo, hi, perm, v) && (In(a, v) <==> Find(s0.areas, v) == k)
    {
      ProtectingPage(s0, k, lo, hi, perm, v);
    }
  }

  /** One more area protected, at page `v`. */
  lemma ProtectingPage(s0: Space, k: nat, lo: Vpn, hi: Vpn, perm: Perm, v: Vpn)
    requires Disjoint(s0.areas) && k < |s0.areas|
    ensures In(s0.areas[k], v) <==> Find(s0.areas, v) == k
    ensures PartlyProtected(s0.areas, k + 1, lo, hi, perm, v) ==
            if In(s0.areas[k], v) then Some(ProtectAt(s0.areas[k], lo, hi, perm, v))
            else PartlyProtected(s0.areas, k, lo, hi, perm, v)
  {
    hide Find, ProtectAt;
    if In(s0.areas[k], v) { FindUnique(s0.areas, v, k); }
  }

  // ---------- adding and resizing areas ----------

  ghost predicate Free(areas: seq<MapArea>, lo: Vpn, hi: Vpn) {
    forall i, v | 0 <= i < |areas| && lo <= v < hi :: !In(areas[i], v)
  }

  /** A new area without frames on a free range. */
  lemma AppendAreaOk(areas: seq<MapArea>, a: MapArea, pt: PageMap)
    requires SpaceOk(Space(areas, pt)) && AreaOk(a) && a.frames == map[] && Free(areas, a.start, a.end)
    ensures SpaceOk(Space(areas + [a], pt))
    ensures forall v :: AreaAt(areas + [a], v) == if In(a, v) then Some(a) else AreaAt(areas, v)
  {
    hide Find, AreaAt;
    var bs := areas + [a];
    assert AreasOk(bs) by {
      forall i | 0 <= i < |bs| ensures AreaOk(bs[i]) { assert i < |areas| ==> bs[i] == areas[i]; }
      forall i, j, v | 0 <= i < j < |bs| && In(bs[i], v) ensures !In(bs[j], v) {
        assert bs[i] == areas[i];
        assert j < |areas| ==> bs[j] == areas[j];
      }
    }
    forall v ensures PageOk(bs, pt, v) && AreaAt(bs, v) == if In(a, v) then Some(a) else AreaAt(areas, v) {
      AreaAtConcat(areas, [a], v);
      AreaAtSingle(a, v);
      if In(a, v) { FreeHasNone(areas, a.start, a.end, v); }
      PageOkAt(bs, pt, v);
      assert PageOk(areas, pt, v);
      PageOkAt(areas, pt, v);
    }
  }

  lemma FreeHasNone(areas: seq<MapArea>, lo: Vpn, hi: Vpn, v: Vpn)
    requires Free(areas, lo, hi) && lo <= v < hi
    ensures AreaAt(areas, v).None?
  {
    hide Find;
  }

  /** Extending area `idx` to `end` keeps the areas disjoint exactly when no other area has a page in between. */
  lemma ExtendAreaExactly(areas: seq<MapArea>, idx: nat, end: Vpn)
    requires AreasOk(areas) && idx < |areas| && areas[idx].end <= end <= VPN_LIMIT
    ensures AreasOk(areas[idx := areas[idx].(end := end)]) <==>
            forall j, v | 0 <= j < |areas| && j != idx && areas[idx].end <= v < end :: !In(areas[j], v)
  {
    var a := areas[idx];
    var bs := areas[idx := a.(end := end)];
    if forall j, v | 0 <= j < |areas| && j != idx && a.end <= v < end :: !In(areas[j], v) {
      forall i | 0 <= i < |bs| ensures AreaOk(bs[i]) { assert i != idx ==> bs[i] == areas[i]; }
      forall i, j, v | 0 <= i < j < |bs| && In(bs[i], v) ensures !In(bs[j], v) {
        assert i != idx ==> bs[i] == areas[i];
        assert j != idx ==> bs[j] == areas[j];
      }
    } else {
      var j, v :| 0 <= j < |areas| && j != idx && a.end <= v < end && In(areas[j], v);
      assert In(bs[idx], v) && In(bs[j], v);
      assert !AreasOk(bs);
    }
  }

  /** Then the pages keep their entries too. */
  lemma ExtendAreaPages(areas: seq<MapArea>, pt: PageMap, idx: nat, end: Vpn)
    requires SpaceOk(Space(areas, pt)) && idx < |areas| && areas[idx].end <= end
    requires AreasOk(areas[idx := areas[idx].(end := end)])
    ensures SpaceOk(Space(areas[idx := areas[idx].(end := end)], pt))
  {
    hide Find;
    var bs := areas[idx := areas[idx].(end := end)];
    forall v ensures PageOk(bs, pt, v) {
      assert PageOk(areas, pt, v);
      var i, j := Find(areas, v), Find(bs, v);
      if i < |areas| {
        assert In(bs[i], v);
        FindUnique(bs, v, i);
      } else if j < |bs| {
        assert AreaOk(areas[idx]);
      }
    }
  }

  /** The first heap area. */
  function FindHeap(areas: seq<MapArea>, k: nat): (i: nat)
    requires k <= |areas|
    ensures k <= i <= |areas| && (i < |areas| ==> areas[i].areaType.Heap?)
    ensures forall j | k <= j < i :: !areas[j].areaType.Heap?
    decreases |areas| - k
  {
    if k == |areas| || areas[k].areaType.Heap? then k else FindHeap(areas, k + 1)
  }

  function NewHeap(lo: Vpn, hi: Vpn): (a: MapArea) {
    MapArea(lo, hi, map[], Perm(true, true, false, true), Private, Heap, true, None)
  }

  /** `heap_expand_conflicts`: some area other than a heap overlaps the range. */
  predicate HeapConflict(areas: seq<MapArea>, lo: Vpn, hi: Vpn) {
    exists i | 0 <= i < |areas| :: !areas[i].areaType.Heap? && areas[i].start < hi && areas[i].end > lo
  }

  /** No other heap area, left by a split, has a page in the range. */
  ghost predicate HeapsClear(areas: seq<MapArea>, idx: nat, lo: Vpn, hi: Vpn) {
    forall j, v | 0 <= j < |areas| && j != idx && areas[j].areaType.Heap? && lo <= v < hi :: !In(areas[j], v)
  }

  /** Growing a heap that was split by a protection change makes two areas share pages. */
  lemma SplitHeapOverlaps()
    ensures var heap := MapArea(0, 4, map[], Perm(true, true, false, true), Private, Heap, true, None);
            var parts := ProtectParts(heap, 2, 4, Perm(true, false, false, true));
            && AreasOk([heap]) && AreasOk(parts) && FindHeap(parts, 0) == 0 && !HeapConflict(parts, parts[0].end, 6)
            && !AreasOk(parts[0 := parts[0].(end := 6)])
  {
    var heap := MapArea(0, 4, map[], Perm(true, true, false, true), Private, Heap, true, None);
    ProtectPartsOk(heap, 2, 4, Perm(true, false, false, true));
    var parts := ProtectParts(heap, 2, 4, Perm(true, false, false, true));
    var grown := parts[0 := parts[0].(end := 6)];
    assert In(grown[0], 2) && In(grown[1], 2);
  }

  // ---------- what the operations leave behind ----------

  /** The address space and the frames after `unmap_range`. */
  ghost predicate IsUnmapped(s: Space, pool: Pool, t: Space, pool': Pool, lo: Vpn, hi: Vpn) {
    && SpaceOk(t) && PoolOk(pool') && lo < hi
    && (forall v :: AreaAt(t.areas, v) == UnmappedAt(s.areas, lo, hi, v))
    && (forall v :: v in t.pt <==> v in s.pt && AreaAt(t.areas, v).Some?)
    && (forall v | v in t.pt :: t.pt[v] == s.pt[v])
    && Ledger(pool, s.pt, pool', t.pt) && pool'.mem == pool.mem
  }

  /** The address space after a successful `change_protection`. */
  ghost predicate IsProtected(s: Space, t: Space, lo: Vpn, hi: Vpn, perm: Perm) {
    && SpaceOk(t) && lo < hi
    && (forall v :: AreaAt(t.areas, v) == ProtectedAt(s.areas, lo, hi, perm, v))
    && t.pt == ReflagRange(s.pt, lo, hi, perm)
  }

  function NewArea(lo: Vpn, hi: Vpn, perm: Perm, meta: MmapMeta): (a: MapArea) {
    MapArea(lo, hi, map[], perm, if meta.shared then Shared else Private, MmapAnon, true, Some(meta))
  }

  /** The address space after a lazy area `a` without frames was added. */
  ghost predicate IsMapped(s: Space, t: Space, a: MapArea) {
    && SpaceOk(t) && t.pt == s.pt && a.lazy && Free(s.areas, a.start, a.end)
    && forall v: Vpn :: AreaAt(t.areas, v) == if In(a, v) then Some(a) else AreaAt(s.areas, v)
  }

  /** The address space after lazy area `i` was extended to `end`. */
  ghost predicate IsExtended(s: Space, t: Space, i: nat, end: Vpn) {
    && SpaceOk(t) && i < |s.areas| && s.areas[i].lazy && s.areas[i].end <= end
    && t == Space(s.areas[i := s.areas[i].(end := end)], s.pt)
  }

  /** The address space and the frames after area `i` was cut off at `end`. */
  ghost predicate IsCut(s: Space, pool: Pool, t: Space, pool': Pool, i: nat, end: Vpn) {
    && SpaceOk(t) && PoolOk(pool') && i < |s.areas| && s.areas[i].start <= end <= s.areas[i].end
    && t.areas == s.areas[i := Trim(s.areas[i], s.areas[i].start, end)]
    && (forall v :: v in t.pt <==> v in s.pt && !(end <= v < s.areas[i].end))
    && (forall v | v in t.pt :: t.pt[v] == s.pt[v])
    && Ledger(pool, s.pt, pool', t.pt) && pool'.mem == pool.mem
  }
}
