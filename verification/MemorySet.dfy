/** `MemorySet`: mapping, unmapping, protecting, faulting and cloning the pages of one address space. */
module MemorySets {
  import opened Collections
  import opened Frames
  import opened AddressSpaces
  import opened AreaLists

  class MemorySet {
    var areas: seq<MapArea>
    var pageTable: PageMap

    constructor ()
      ensures areas == [] && pageTable == map[]
    {
      areas, pageTable := [], map[];
    }

    ghost function Value(): (s: Space)
      reads this
    {
      Space(areas, pageTable)
    }

    /** The bookkeeping invariant, and a reference for every mapped page. */
    ghost predicate Consistent(ft: FrameTable)
      reads this, ft, ft.allocator
    {
      SpaceOk(Value()) && Backed(ft.Value(), pageTable)
    }

    /** `MapArea::unmap_one`. */
    method UnmapOne(idx: nat, v: Vpn, ft: FrameTable)
      requires Consistent(ft) && idx < |areas| && In(areas[idx], v)
      modifies this, ft, ft.allocator
      ensures Consistent(ft)
      ensures areas == old(areas)[idx := old(areas[idx]).(frames := old(areas[idx]).frames - {v})]
      ensures pageTable == old(pageTable) - {v}
      ensures Ledger(old(ft.Value()), old(pageTable), ft.Value(), pageTable) && ft.mem == old(ft.mem)
    {
      hide SpaceOk, Ledger, PoolOk, DropRef, Count;
      var a := areas[idx];
      ghost var pre, post := areas[..idx], areas[idx + 1..];
      assert areas == pre + [a] + post;
      UnmapPageOk(pre, a, post, pageTable, ft.Value(), v);
      var had := v in a.frames;
      if had {
        TrackedHasRef(areas, pageTable, ft.Value(), idx, v);
        areas := areas[idx := a.(frames := a.frames - {v})];
        ft.Drop(a.frames[v]);
      }
      if (had || !a.lazy) && v in pageTable {
        pageTable := pageTable - {v};
      }
      assert areas == pre + [a.(frames := a.frames - {v})] + post;
    }

    static lemma TrackedHasRef(areas: seq<MapArea>, pt: PageMap, pool: Pool, idx: nat, v: Vpn)
      requires SpaceOk(Space(areas, pt)) && Backed(pool, pt) && idx < |areas| && v in areas[idx].frames
      ensures areas[idx].frames[v] in pool.refs
    {
      hide Find, Disjoint, Count;
      assert AreaOk(areas[idx]);
      FindUnique(areas, v, idx);
      assert PageOk(areas, pt, v);
      CountTwo(pt, v, v);
      assert Refs(pool, pt[v].ppn) >= 1;
    }

    /** The loops that unmap pages `lo..hi` of one area. */
    method UnmapPages(idx: nat, lo: Vpn, hi: Vpn, ft: FrameTable)
      requires Consistent(ft) && idx < |areas| && areas[idx].start <= lo <= hi <= areas[idx].end
      modifies this, ft, ft.allocator
      ensures Consistent(ft) && |areas| == |old(areas)|
      ensures areas == old(areas)[idx := old(areas[idx]).(frames := areas[idx].frames)]
      ensures forall v :: v in areas[idx].frames <==> v in old(areas[idx]).frames && !(lo <= v < hi)
      ensures forall v | v in areas[idx].frames :: areas[idx].frames[v] == old(areas[idx]).frames[v]
      ensures forall v :: v in pageTable <==> v in old(pageTable) && !(lo <= v < hi)
      ensures forall v | v in pageTable :: pageTable[v] == old(pageTable)[v]
      ensures Ledger(old(ft.Value()), old(pageTable), ft.Value(), pageTable) && ft.mem == old(ft.mem)
    {
      hide SpaceOk, Ledger, Backed;
      var v := lo;
      ghost var pool, pt, frames := ft.Value(), pageTable, areas[idx].frames;
      LedgerRefl(pool, pt);
      assert areas == areas[idx := areas[idx].(frames := areas[idx].frames)];
      while v < hi
        invariant lo <= v <= hi && Consistent(ft) && idx < |areas|
        invariant areas == old(areas)[idx := old(areas[idx]).(frames := areas[idx].frames)]
        invariant forall u :: u in areas[idx].frames <==> u in frames && !(lo <= u < v)
        invariant forall u | u in areas[idx].frames :: areas[idx].frames[u] == frames[u]
        invariant forall u :: u in pageTable <==> u in pt && !(lo <= u < v)
        invariant forall u | u in pageTable :: pageTable[u] == pt[u]
        invariant Ledger(pool, pt, ft.Value(), pageTable) && ft.mem == old(ft.mem)
      {
        ghost var pool1, pt1 := ft.Value(), pageTable;
        UnmapOne(idx, v, ft);
        LedgerTrans(pool, pt, pool1, pt1, ft.Value(), pageTable);
        v := v + 1;
      }
    }

    /** One round of `unmap_range`: area `idx` is skipped, removed, or cut down, and the number of areas it
        became is returned. */
    method UnmapArea(idx: nat, lo: Vpn, hi: Vpn, ft: FrameTable) returns (n: nat)
      requires Consistent(ft) && idx < |areas| && lo < hi
      modifies this, ft, ft.allocator
      ensures Consistent(ft)
      ensures n == |UnmapParts(old(areas[idx]), lo, hi)|
      ensures areas == old(areas)[..idx] + UnmapParts(old(areas[idx]), lo, hi) + old(areas)[idx + 1..]
      ensures forall v :: AreaAt(areas, v) ==
                          if In(old(areas[idx]), v) then UnmapAt(old(areas[idx]), lo, hi, v) else AreaAt(old(areas), v)
      ensures pageTable == UnmapTable(old(areas[idx]), old(pageTable), lo, hi)
      ensures Ledger(old(ft.Value()), old(pageTable), ft.Value(), pageTable) && ft.mem == old(ft.mem)
    {
      hide SpaceOk, Ledger, Backed, AreaAt;
      var a := areas[idx];
      ghost var pre, post := areas[..idx], areas[idx + 1..];
      assert areas == pre + [a] + post;
      AreaRange(Value(), idx);
      UnmapAreaOk(pre, a, post, pageTable, lo, hi);
      if Protected(a) || a.end <= lo || a.start >= hi {
        LedgerRefl(ft.Value(), pageTable);
        assert UnmapTable(a, pageTable, lo, hi) == pageTable;
        return 1;
      }
      if a.start >= lo && a.end <= hi {
        UnmapPages(idx, a.start, a.end, ft);
        areas := areas[..idx] + areas[idx + 1..];
        assert areas == pre + [] + post;
        n := 0;
      } else {
        CutArea(idx, lo, hi, ft);
        assert areas == pre + UnmapParts(a, lo, hi) + post;
        n := 1;
      }
      assert pageTable == UnmapTable(a, old(pageTable), lo, hi) by {
        UnmapTableAt(old(Value()), idx, pageTable, lo, hi);
      }
    }

    /** The partial-overlap branch of `unmap_range`. */
    method CutArea(idx: nat, lo: Vpn, hi: Vpn, ft: FrameTable)
      requires Consistent(ft) && idx < |areas| && lo < hi && areas[idx].start < hi && lo < areas[idx].end
      requires !Protected(areas[idx]) && !(areas[idx].start >= lo && areas[idx].end <= hi)
      modifies this, ft, ft.allocator
      ensures areas == old(areas)[idx := UnmapParts(old(areas[idx]), lo, hi)[0]]
      ensures pageTable.Keys <= old(pageTable).Keys && forall v | v in pageTable :: pageTable[v] == old(pageTable)[v]
      ensures forall v | v in old(pageTable) ::
                v in pageTable <==> (In(old(areas[idx]), v) ==> UnmapAt(old(areas[idx]), lo, hi, v).Some?)
      ensures Backed(ft.Value(), pageTable)
      ensures Ledger(old(ft.Value()), old(pageTable), ft.Value(), pageTable) && ft.mem == old(ft.mem)
    {
      hide SpaceOk, Ledger, Backed;
      var a := areas[idx];
      AreaRange(Value(), idx);
      var overlapStart := if a.start < lo then lo else a.start;
      var overlapEnd := if a.end < hi then a.end else hi;
      ghost var pool, pt := ft.Value(), pageTable;
      UnmapPages(idx, overlapStart, overlapEnd, ft);
      if overlapStart == a.start {
        areas := areas[idx := areas[idx].(start := overlapEnd)];
      } else if overlapEnd == a.end {
        areas := areas[idx := areas[idx].(end := overlapStart)];
      } else {
        ghost var pool1, pt1 := ft.Value(), pageTable;
        UnmapPages(idx, overlapEnd, a.end, ft);
        LedgerTrans(pool, pt, pool1, pt1, ft.Value(), pageTable);
        areas := areas[idx := areas[idx].(end := overlapStart)];
      }
      assert areas[idx].frames == UnmapParts(a, lo, hi)[0].frames;
    }

    static lemma AreaRange(s: Space, idx: nat)
      requires SpaceOk(s) && idx < |s.areas|
      ensures AreaOk(s.areas[idx])
    {
    }

    /** `unmap_range` on pages `lo..hi`: page by page, what `UnmapAt` says; the page table loses exactly the pages
        that lose their area, and their frames lose one reference each. */
    method UnmapRange(lo: Vpn, hi: Vpn, ft: FrameTable)
      requires Consistent(ft)
      modifies this, ft, ft.allocator
      ensures Consistent(ft)
      ensures lo >= hi ==> Value() == old(Value()) && ft.Value() == old(ft.Value())
      ensures lo < hi ==> IsUnmapped(old(Value()), old(ft.Value()), Value(), ft.Value(), lo, hi)
    {
      hide SpaceOk, Ledger, Backed, AreaAt, UnmapAt, UnmapParts, UnmapTable, Unmapping, Disjoint, IsUnmapped;
      ghost var pool, s0 := ft.Value(), Value();
      LedgerRefl(pool, s0.pt);
      SpaceDisjoint(s0);
      UnmappingStart(s0, lo, hi);
      if lo >= hi { return; }
      var idx: nat := 0;
      ghost var k: nat := 0;
      while idx < |areas|
        invariant idx <= |areas| && k <= |s0.areas| && Consistent(ft)
        invariant areas[idx..] == s0.areas[k..]
        invariant Unmapping(s0, Value(), k, lo, hi)
        invariant Ledger(pool, s0.pt, ft.Value(), pageTable) && ft.mem == old(ft.mem)
        decreases |areas| - idx
      {
        ghost var pool1, s1 := ft.Value(), Value();
        assert areas[idx] == areas[idx..][0] == s0.areas[k];
        var n := UnmapArea(idx, lo, hi, ft);
        LedgerTrans(pool, s0.pt, pool1, s1.pt, ft.Value(), pageTable);
        UnmappingStep(s0, s1, k, s0.areas[k], Value(), lo, hi);
        assert areas[idx + n..] == s1.areas[idx..][1..] == s0.areas[k..][1..] == s0.areas[k + 1..];
        idx := idx + n;
        k := k + 1;
      }
      BackedOk(ft.Value(), pageTable);
      UnmappingDone(s0, pool, Value(), ft.Value(), lo, hi);
    }

    static lemma UnmappingDone(s0: Space, pool: Pool, s: Space, pool': Pool, lo: Vpn, hi: Vpn)
      requires Unmapping(s0, s, |s0.areas|, lo, hi) && lo < hi && SpaceOk(s) && PoolOk(pool')
      requires Ledger(pool, s0.pt, pool', s.pt) && pool'.mem == pool.mem
      ensures IsUnmapped(s0, pool, s, pool', lo, hi)
    {
      hide AreaAt, PartlyUnmapped, SpaceOk, PoolOk, Ledger;
      forall v { PartlyAll(s0.areas, lo, hi, v); }
    }

    /** The largest end of an area that contains `cursor`. */
    method NextEnd(cursor: Vpn) returns (r: Option<Vpn>)
      ensures r.None? <==> forall i | 0 <= i < |areas| :: !In(areas[i], cursor)
      ensures r.Some? ==> exists i | 0 <= i < |areas| :: In(areas[i], cursor) && areas[i].end == r.value
    {
      r := None;
      for i := 0 to |areas|
        invariant r.None? <==> forall j | 0 <= j < i :: !In(areas[j], cursor)
        invariant r.Some? ==> exists j | 0 <= j < |areas| :: In(areas[j], cursor) && areas[j].end == r.value
      {
        if areas[i].start <= cursor && areas[i].end > cursor {
          assert In(areas[i], cursor);
          r := Some(if r.Some? && r.value > areas[i].end then r.value else areas[i].end);
        }
      }
    }

    /** The first loop of `change_protection`: whether every page of the range has an area. */
    method CheckCovered(lo: Vpn, hi: Vpn) returns (ok: bool)
      ensures ok <==> Covered(areas, lo, hi)
    {
      hide Find;
      var cursor := lo;
      while cursor < hi
        invariant lo <= cursor && Covered(areas, lo, if cursor < hi then cursor else hi)
        decreases hi - cursor
      {
        var next := NextEnd(cursor);
        if next.None? {
          assert AreaAt(areas, cursor).None?;
          return false;
        }
        ghost var i :| 0 <= i < |areas| && In(areas[i], cursor) && areas[i].end == next.value;
        forall v | cursor <= v < next.value ensures AreaAt(areas, v).Some? {
          assert In(areas[i], v);
        }
        cursor := if next.value < hi then next.value else hi;
      }
      ok := true;
    }

    /** The second loop: whether some overlapped area refuses the access. */
    method CheckDenied(lo: Vpn, hi: Vpn, perm: Perm) returns (denied: bool)
      ensures denied <==> perm.w && exists i | 0 <= i < |areas| ::
                && areas[i].start < hi && lo < areas[i].end && areas[i].meta.Some?
                && var m := areas[i].meta.value; m.fileBacked && m.shared && !m.fileWritable
    {
      for i := 0 to |areas|
        invariant forall j | 0 <= j < i :: !Denied(areas[j], lo, hi, perm)
      {
        if Denied(areas[i], lo, hi, perm) { return true; }
      }
      denied := false;
    }

    /** `MapArea::split_off`, as the pair of the shortened area and the new one. */
    static function SplitOff(a: MapArea, at: Vpn): (r: (MapArea, MapArea)) {
      (a.(end := at, frames := map v | v in a.frames && v < at :: a.frames[v]),
       a.(start := at, frames := map v | v in a.frames && v >= at :: a.frames[v]))
    }

    /** `split_off` loses no frame and no page. */
    static lemma SplitOffOk(a: MapArea, at: Vpn)
      requires AreaOk(a) && a.start <= at <= a.end
      ensures SplitOff(a, at) == (Trim(a, a.start, at), Trim(a, at, a.end))
      ensures AreaOk(SplitOff(a, at).0) && AreaOk(SplitOff(a, at).1)
      ensures SplitOff(a, at).0.frames + SplitOff(a, at).1.frames == a.frames
    {
      assert Keep(a.frames, a.start, at) == SplitOff(a, at).0.frames;
      assert Keep(a.frames, at, a.end) == SplitOff(a, at).1.frames;
    }

    /** `MapArea::apply_perm`. */
    method ApplyPerm(a: MapArea, perm: Perm) returns (b: MapArea)
      modifies this`pageTable
      ensures b == a.(perm := perm)
      ensures pageTable == ReflagRange(old(pageTable), a.start, a.end, perm)
    {
      var v := a.start;
      while v < a.end
        invariant a.start <= v && pageTable.Keys == old(pageTable).Keys
        invariant forall u | u in pageTable ::
                    pageTable[u] == if In(a, u) && u < v then Reflag(old(pageTable)[u], perm) else old(pageTable)[u]
        decreases a.end - v
      {
        if v in pageTable {
          pageTable := pageTable[v := Reflag(pageTable[v], perm)];
        }
        v := v + 1;
      }
      b := a.(perm := perm);
    }

    /** One round of the last loop: area `idx` is split as needed and its pages in range get `perm`; the number of
        areas it became is returned, which is how far the index advances. */
    method ProtectArea(idx: nat, lo: Vpn, hi: Vpn, perm: Perm) returns (n: nat)
      requires SpaceOk(Value()) && idx < |areas| && lo < hi
      modifies this
      ensures SpaceOk(Value())
      ensures n == |ProtectParts(old(areas[idx]), lo, hi, perm)|
      ensures areas == old(areas)[..idx] + ProtectParts(old(areas[idx]), lo, hi, perm) + old(areas)[idx + 1..]
      ensures forall v :: AreaAt(areas, v) ==
                if In(old(areas[idx]), v) then Some(ProtectAt(old(areas[idx]), lo, hi, perm, v)) else AreaAt(old(areas), v)
      ensures pageTable == ProtectTable(old(areas[idx]), old(pageTable), lo, hi, perm)
    {
      hide SpaceOk, AreaAt, ProtectAt;
      var a := areas[idx];
      ghost var pre, post := areas[..idx], areas[idx + 1..];
      assert areas == pre + [a] + post;
      AreaRange(Value(), idx);
      ProtectAreaOk(pre, a, post, pageTable, lo, hi, perm);
      if a.end <= lo || a.start >= hi {
        assert pageTable == ProtectTable(a, pageTable, lo, hi, perm);
        assert areas == pre + ProtectParts(a, lo, hi, perm) + post;
        return 1;
      }
      var ms := if a.start < lo then lo else a.start;
      var me := if a.end < hi then a.end else hi;
      var parts := SplitAndApply(a, ms, me, perm);
      areas := areas[..idx] + parts + areas[idx + 1..];
      n := |parts|;
      assert parts == ProtectParts(a, lo, hi, perm);
    }

    /** The four ways in which the range can lie in the area. */
    method SplitAndApply(a: MapArea, ms: Vpn, me: Vpn, perm: Perm) returns (parts: seq<MapArea>)
      requires AreaOk(a) && a.start <= ms <= me <= a.end
      modifies this`pageTable
      ensures parts == (if a.start < ms then [Trim(a, a.start, ms)] else [])
                       + [(if ms == a.start && me == a.end then a else Trim(a, ms, me)).(perm := perm)]
                       + (if me < a.end then [Trim(a, me, a.end)] else [])
      ensures pageTable == ReflagRange(old(pageTable), ms, me, perm)
    {
      hide ReflagRange, Keep;
      SplitOffOk(a, ms);
      SplitOffOk(a, me);
      if ms == a.start && me == a.end {
        var b := ApplyPerm(a, perm);
        parts := [b];
      } else if ms == a.start {
        var (left, right) := SplitOff(a, me);
        var b := ApplyPerm(left, perm);
        parts := [b, right];
      } else if me == a.end {
        var (left, middle) := SplitOff(a, ms);
        var b := ApplyPerm(middle, perm);
        parts := [left, b];
      } else {
        var (left, rest) := SplitOff(a, ms);
        SplitOffOk(rest, me);
        TrimTwice(a, ms, me);
        var (middle, right) := SplitOff(rest, me);
        var b := ApplyPerm(middle, perm);
        parts := [left, b, right];
      }
    }

    static lemma TrimTwice(a: MapArea, ms: Vpn, me: Vpn)
      requires AreaOk(a) && a.start <= ms <= me <= a.end
      ensures Trim(Trim(a, ms, a.end), ms, me) == Trim(a, ms, me)
      ensures Trim(Trim(a, ms, a.end), me, a.end) == Trim(a, me, a.end)
    {
    }

    /** `change_protection`: an error changes nothing; success changes exactly the pages of the range. */
    method ChangeProtection(lo: Vpn, hi: Vpn, perm: Perm) returns (err: Option<ProtectError>)
      requires SpaceOk(Value())
      modifies this
      ensures SpaceOk(Value())
      ensures err == Some(Unmapped) <==> !old(Covered(areas, lo, hi))
      ensures err == Some(AccessDenied) <==>
              && lo < hi && old(Covered(areas, lo, hi)) && perm.w
              && exists i | 0 <= i < |old(areas)| ::
                   && old(areas)[i].start < hi && lo < old(areas)[i].end && old(areas)[i].meta.Some?
                   && var m := old(areas)[i].meta.value; m.fileBacked && m.shared && !m.fileWritable
      ensures err.Some? || lo >= hi ==> Value() == old(Value())
      ensures err.None? && lo < hi ==> IsProtected(old(Value()), Value(), lo, hi, perm)
      ensures err.None? ==>
                && (forall v :: v in pageTable <==> v in old(pageTable))
                && (forall v | v in pageTable ::
                      pageTable[v] == if lo <= v < hi then Pte(old(pageTable)[v].ppn, perm.w, perm.u) else old(pageTable)[v])
    {
      hide SpaceOk, AreaAt, ProtectAt, Protecting, ProtectParts, ProtectTable, Disjoint, Reflag, Find;
      ghost var s0 := Value();
      if lo >= hi {
        assert pageTable == ReflagRange(pageTable, lo, hi, perm);
        return None;
      }
      var covered := CheckCovered(lo, hi);
      if !covered { return Some(Unmapped); }
      var denied := CheckDenied(lo, hi, perm);
      if denied { return Some(AccessDenied); }
      SpaceDisjoint(s0);
      ProtectingStart(s0, lo, hi, perm);
      var idx: nat := 0;
      ghost var k: nat := 0;
      while idx < |areas|
        invariant idx <= |areas| && k <= |s0.areas| && SpaceOk(Value())
        invariant areas[idx..] == s0.areas[k..]
        invariant Protecting(s0, Value(), k, lo, hi, perm)
        decreases |areas| - idx
      {
        ghost var s1 := Value();
        assert areas[idx] == areas[idx..][0] == s0.areas[k];
        var n := ProtectArea(idx, lo, hi, perm);
        ProtectingStep(s0, s1, k, s0.areas[k], Value(), lo, hi, perm);
        assert areas[idx + n..] == s1.areas[idx..][1..] == s0.areas[k..][1..] == s0.areas[k + 1..];
        idx := idx + n;
        k := k + 1;
      }
      ProtectingDone(s0, Value(), lo, hi, perm);
      Reflagged(s0.pt, lo, hi, perm);
      err := None;
    }

    static lemma Reflagged(pt: PageMap, lo: Vpn, hi: Vpn, perm: Perm)
      ensures ReflagRange(pt, lo, hi, perm).Keys == pt.Keys
      ensures forall v | v in pt ::
                ReflagRange(pt, lo, hi, perm)[v] == if lo <= v < hi then Pte(pt[v].ppn, perm.w, perm.u) else pt[v]
    {
    }

    static lemma ProtectingDone(s0: Space, s: Space, lo: Vpn, hi: Vpn, perm: Perm)
      requires Protecting(s0, s, |s0.areas|, lo, hi, perm) && SpaceOk(s0)
      ensures forall v :: AreaAt(s.areas, v) == ProtectedAt(s0.areas, lo, hi, perm, v)
      ensures s.pt == ReflagRange(s0.pt, lo, hi, perm)
    {
      hide Find, ProtectAt, Reflag, AreasOk;
      forall v | v in s0.pt ensures Find(s0.areas, v) < |s0.areas| { assert PageOk(s0.areas, s0.pt, v); }
      assert s.pt.Keys == ReflagRange(s0.pt, lo, hi, perm).Keys;
    }

    /** `MapArea::map_one` on a page without an entry: a zeroed frame, or nothing when there is none. */
    method MapOne(a: MapArea, v: Vpn, ft: FrameTable) returns (b: MapArea)
      requires PoolOk(ft.Value()) && v !in pageTable
      modifies this`pageTable, ft, ft.allocator
      ensures var pool := old(ft.Value());
              if Exhausted(pool) then b == a && pageTable == old(pageTable) && ft.Value() == pool
              else
                && b == a.(frames := a.frames[v := NextFrame(pool)])
                && pageTable == old(pageTable)[v := Pte(NextFrame(pool), a.perm.w, a.perm.u)]
                && ft.Value() == AllocFrame(pool)
    {
      var p := ft.Alloc();
      if p.None? { return a; }
      b := a.(frames := a.frames[v := p.value]);
      pageTable := pageTable[v := Pte(p.value, a.perm.w, a.perm.u)];
    }

    /** `handle_demand_fault` on anonymous memory. */
    method HandleDemandFault(v: Vpn, ft: FrameTable) returns (ok: bool)
      requires Consistent(ft)
      modifies this, ft, ft.allocator
      ensures Outcome(ok, Value(), ft.Value()) == DemandFault(old(Value()), old(ft.Value()), v)
      ensures Consistent(ft) && Ledger(old(ft.Value()), old(pageTable), ft.Value(), pageTable)
    {
      hide SpaceOk, Ledger, PoolOk, Count, FindLazy, AllocFrame;
      DemandKeeps(Value(), ft.Value(), v);
      var idx := FindLazy(areas, v, 0);
      if idx == |areas| { return false; }
      if v in pageTable { return false; }
      ghost var exhausted := Exhausted(ft.Value());
      var b := MapOne(areas[idx], v, ft);
      if v !in pageTable { return false; }
      areas := areas[idx := b];
      ok := true;
    }

    /** A demand fault keeps the invariant and the accounts. */
    static lemma DemandKeeps(s: Space, pool: Pool, v: Vpn)
      requires SpaceOk(s) && Backed(pool, s.pt)
      ensures var r := DemandFault(s, pool, v);
              SpaceOk(r.space) && Backed(r.pool, r.space.pt) && Ledger(pool, s.pt, r.pool, r.space.pt)
    {
      hide PageOk, Disjoint, Ledger, Backed, AllocFrame, FindLazy, Find;
      var r := DemandFault(s, pool, v);
      if r.ok {
        var i := FindLazy(s.areas, v, 0);
        SetFrameOk(s, i, v, Pte(NextFrame(pool), s.areas[i].perm.w, s.areas[i].perm.u));
        AllocLedger(pool, s.pt, v, s.areas[i].perm.w, s.areas[i].perm.u);
      } else {
        LedgerRefl(pool, s.pt);
      }
    }

    /** What a demand fault does: where a lazy area covers an unmapped page and a frame is left, the page gets a zeroed
        frame nobody held, with the area's flags; otherwise nothing changes. */
    static lemma DemandExactly(s: Space, pool: Pool, v: Vpn)
      requires SpaceOk(s) && Backed(pool, s.pt)
      ensures var r := DemandFault(s, pool, v);
              && (r.ok <==> && (exists a | a in s.areas :: a.lazy && a.start <= v < a.end)
                            && v !in s.pt && (pool.recycled != [] || pool.current < pool.end))
              && (!r.ok ==> r.space == s && r.pool == pool)
              && (r.ok ==> v in r.space.pt && r.space.pt[v].ppn !in pool.refs && r.space.pt == s.pt[v := r.space.pt[v]]
                           && r.pool.refs == pool.refs[r.space.pt[v].ppn := 1]
                           && r.pool.mem == pool.mem[r.space.pt[v].ppn := ZeroPage])
              && (r.ok ==> forall a | a in s.areas && a.start <= v < a.end ::
                             r.space.pt[v].w == a.perm.w && r.space.pt[v].u == a.perm.u)
    {
      var i := FindLazy(s.areas, v, 0);
      if i < |s.areas| {
        assert s.areas[i] in s.areas && s.areas[i].lazy && In(s.areas[i], v);
        forall a | a in s.areas && In(a, v) ensures a == s.areas[i] { OneOwner(s.areas, i, a, v); }
      }
      if !Exhausted(pool) { AllocFresh(pool); }
    }

    static lemma OneOwner(areas: seq<MapArea>, i: nat, a: MapArea, v: Vpn)
      requires Disjoint(areas) && i < |areas| && In(areas[i], v) && a in areas && In(a, v)
      ensures a == areas[i]
    {
      var j :| 0 <= j < |areas| && areas[j] == a;
      assert j == i;
    }

    /** `handle_cow_fault`. */
    method HandleCowFault(v: Vpn, ft: FrameTable) returns (ok: bool)
      requires Consistent(ft)
      modifies this, ft, ft.allocator
      ensures Outcome(ok, Value(), ft.Value()) == CowFault(old(Value()), old(ft.Value()), v)
      ensures Consistent(ft) && Ledger(old(ft.Value()), old(pageTable), ft.Value(), pageTable)
    {
      hide SpaceOk, Ledger, PoolOk, Count, Find, AllocFrame, DropRef, Backed, Contents;
      CowKeeps(Value(), ft.Value(), v);
      var idx := Find(areas, v);
      if idx == |areas| { return false; }
      var a := areas[idx];
      if !a.perm.w { return false; }
      if v !in pageTable || pageTable[v].w { return false; }
      var e := pageTable[v];
      if a.kind.Shared? {
        pageTable := pageTable[v := e.(w := true)];
        return true;
      }
      if v !in a.frames { return false; }
      if a.frames[v] in ft.refs && ft.refs[a.frames[v]] == 1 {
        pageTable := pageTable[v := e.(w := true)];
        return true;
      }
      BackedOk(ft.Value(), pageTable);
      ghost var pool := ft.Value();
      var new_ := ft.Alloc();
      if new_.None? { return false; }
      ft.CopyPage(new_.value, e.ppn);
      CopyReady(Value(), pool, v);
      areas := areas[idx := a.(frames := a.frames[v := new_.value])];
      ft.Drop(a.frames[v]);
      pageTable := pageTable[v := Pte(new_.value, true, e.u)];
      ok := true;
    }

    static lemma BackedOk(pool: Pool, pt: PageMap)
      requires Backed(pool, pt)
      ensures PoolOk(pool)
    {
    }

    /** Between the copy and the drop: the copy reads the old page, and the old frame has a reference to drop. */
    static lemma CopyReady(s: Space, pool: Pool, v: Vpn)
      requires SpaceOk(s) && Backed(pool, s.pt) && v in s.pt && !Exhausted(pool)
      requires Find(s.areas, v) < |s.areas| && v in s.areas[Find(s.areas, v)].frames
      ensures var p, q := NextFrame(pool), s.pt[v].ppn;
              var copied := WritePage(AllocFrame(pool), p, Contents(AllocFrame(pool), q));
              && s.areas[Find(s.areas, v)].frames[v] == q && q in copied.refs && PoolOk(copied)
    {
      hide AreasOk, Find, AllocFrame, PoolOk, Count, Contents;
      var p, q := NextFrame(pool), s.pt[v].ppn;
      assert PageOk(s.areas, s.pt, v);
      AllocFresh(pool);
      CountTwo(s.pt, v, v);
      assert Refs(pool, q) >= 1;
      assert Refs(AllocFrame(pool), q) == Refs(pool, q);
      WriteKeeps(AllocFrame(pool), p, Contents(AllocFrame(pool), q));
    }

    /** A copy-on-write fault keeps the invariant and the accounts. */
    static lemma CowKeeps(s: Space, pool: Pool, v: Vpn)
      requires SpaceOk(s) && Backed(pool, s.pt)
      ensures var r := CowFault(s, pool, v);
              SpaceOk(r.space) && Backed(r.pool, r.space.pt) && Ledger(pool, s.pt, r.pool, r.space.pt)
    {
      hide SpaceOk, Ledger, Backed, AllocFrame, DropRef, Find, Exhausted, Contents;
      var r := CowFault(s, pool, v);
      if !r.ok {
        LedgerRefl(pool, s.pt);
      } else {
        OwnerOf(s, v);
        var i := Find(s.areas, v);
        if s.areas[i].kind.Shared? || Refs(pool, s.areas[i].frames[v]) == 1 {
          SetFlagsOk(s, v, true);
          FlagsLedger(pool, s.pt, v, true);
        } else {
          SetFrameOk(s, i, v, Pte(NextFrame(pool), true, s.pt[v].u));
          CopyLedger(s, pool, v);
        }
      }
    }

    /** When a copy-on-write fault succeeds: on a mapped page without W, in an area with it, that is shared, is the last
        of its frame, or can be copied. */
    static lemma CowSucceedsExactly(s: Space, pool: Pool, v: Vpn)
      requires SpaceOk(s)
      ensures var r := CowFault(s, pool, v);
              && (r.ok <==> v in s.pt && !s.pt[v].w && exists a | a in s.areas ::
                    && a.start <= v < a.end && a.perm.w
                    && (a.kind.Shared? || Refs(pool, s.pt[v].ppn) == 1 || pool.recycled != [] || pool.current != pool.end))
              && (!r.ok ==> r.space == s && r.pool == pool)
    {
      assert PageOk(s.areas, s.pt, v);
      var i := Find(s.areas, v);
      if i < |s.areas| {
        assert s.areas[i] in s.areas && In(s.areas[i], v);
        forall a | a in s.areas && In(a, v) ensures a == s.areas[i] { OneOwner(s.areas, i, a, v); }
      }
    }

    /** What it does: the page gets W and keeps U. A shared page or the last of its frame stays where it is; any other
        page moves to a frame nobody held with the same bytes, and the old frame loses one reference. */
    static lemma CowMoves(s: Space, pool: Pool, v: Vpn)
      requires SpaceOk(s) && Backed(pool, s.pt) && CowFault(s, pool, v).ok && v in s.pt
      ensures var r, p := CowFault(s, pool, v), s.pt[v].ppn;
              var moved := Refs(pool, p) != 1 && exists a | a in s.areas :: a.kind.Private? && a.start <= v < a.end;
              && v in r.space.pt && r.space.pt == s.pt[v := r.space.pt[v]] && r.space.pt[v].w && r.space.pt[v].u == s.pt[v].u
              && (!moved ==> r.space.pt[v].ppn == p && r.space.areas == s.areas && r.pool == pool)
              && (moved ==> && r.space.pt[v].ppn !in pool.refs && Refs(r.pool, r.space.pt[v].ppn) == 1
                            && Contents(r.pool, r.space.pt[v].ppn) == Contents(pool, p)
                            && Refs(r.pool, p) == Refs(pool, p) - 1)
    {
      hide AllocFrame, DropRef, Contents, Count, PoolOk;
      assert PageOk(s.areas, s.pt, v);
      var i := Find(s.areas, v);
      assert s.areas[i] in s.areas && In(s.areas[i], v);
      forall a | a in s.areas && In(a, v) ensures a == s.areas[i] { OneOwner(s.areas, i, a, v); }
      if s.areas[i].kind.Private? && Refs(pool, s.pt[v].ppn) != 1 { CopyMoves(s, pool, v); }
    }

    static lemma CopyMoves(s: Space, pool: Pool, v: Vpn)
      requires Backed(pool, s.pt) && v in s.pt && !Exhausted(pool)
      ensures var p, q := NextFrame(pool), s.pt[v].ppn;
              var pool' := DropRef(WritePage(AllocFrame(pool), p, Contents(AllocFrame(pool), q)), q);
              && p !in pool.refs && Refs(pool', p) == 1 && Contents(pool', p) == Contents(pool, q)
              && Refs(pool', q) == Refs(pool, q) - 1
    {
      hide Count, AllocFrame, DropRef, PoolOk;
      var p, q := NextFrame(pool), s.pt[v].ppn;
      CountTwo(s.pt, v, v);
      AllocFresh(pool);
      var pool1 := WritePage(AllocFrame(pool), p, Contents(AllocFrame(pool), q));
      WriteKeeps(AllocFrame(pool), p, Contents(AllocFrame(pool), q));
      DropKeeps(pool1, q);
      assert q in pool.refs && p != q;
    }

    static lemma FlagsLedger(pool: Pool, pt: PageMap, v: Vpn, w: bool)
      requires Backed(pool, pt) && v in pt
      ensures Backed(pool, pt[v := pt[v].(w := w)]) && Ledger(pool, pt, pool, pt[v := pt[v].(w := w)])
    {
      hide Count;
      forall p ensures Count(pt[v := pt[v].(w := w)], p) == Count(pt, p) { CountPut(pt, v, pt[v].(w := w), p); }
    }

    static lemma CopyLedger(s: Space, pool: Pool, v: Vpn)
      requires Backed(pool, s.pt) && v in s.pt && !Exhausted(pool)
      ensures var p, q := NextFrame(pool), s.pt[v].ppn;
              var pt' := s.pt[v := Pte(p, true, s.pt[v].u)];
              var pool' := DropRef(WritePage(AllocFrame(pool), p, Contents(AllocFrame(pool), q)), q);
              Backed(pool', pt') && Ledger(pool, s.pt, pool', pt')
    {
      hide Count, AllocFrame, DropRef, PoolOk, Contents;
      var p, q := NextFrame(pool), s.pt[v].ppn;
      CountTwo(s.pt, v, v);
      AllocFresh(pool);
      var pool1 := WritePage(AllocFrame(pool), p, Contents(AllocFrame(pool), q));
      WriteKeeps(AllocFrame(pool), p, Contents(AllocFrame(pool), q));
      assert Refs(pool1, q) == Refs(pool, q) >= 1;
      DropKeeps(pool1, q);
      var pt' := s.pt[v := Pte(p, true, s.pt[v].u)];
      forall r ensures Count(pt', r) == Count(s.pt, r) - (if q == r then 1 else 0) + (if p == r then 1 else 0) {
        CountPut(s.pt, v, Pte(p, true, s.pt[v].u), r);
      }
    }

    /** `insert_lazy_anon_area` on a free range: an area without frames. */
    method InsertLazyAnonArea(lo: Vpn, hi: Vpn, perm: Perm, meta: MmapMeta)
      requires SpaceOk(Value()) && lo <= hi <= VPN_LIMIT && Free(areas, lo, hi)
      modifies this`areas
      ensures IsMapped(old(Value()), Value(), NewArea(lo, hi, perm, meta))
      ensures |areas| == |old(areas)| + 1 && areas[..|old(areas)|] == old(areas)
      ensures var a := areas[|old(areas)|];
              && a.start == lo && a.end == hi && a.frames == map[] && a.perm == perm && a.lazy && a.areaType == MmapAnon
              && (a.kind.Shared? <==> meta.shared) && a.meta == Some(meta)
    {
      hide SpaceOk, AreaAt;
      var a := NewArea(lo, hi, perm, meta);
      AppendAreaOk(areas, a, pageTable);
      areas := areas + [a];
    }

    /** `push`: maps every page of a new area, then adds it. Pages stay unmapped only when frames run out. On a lazy
        area this is adding it without frames and taking a demand fault on each page. */
    method Push(a: MapArea, ft: FrameTable)
      requires Consistent(ft) && AreaOk(a) && a.frames == map[] && Free(areas, a.start, a.end)
      modifies this, ft, ft.allocator
      ensures Consistent(ft) && Ledger(old(ft.Value()), old(pageTable), ft.Value(), pageTable)
      ensures |areas| == |old(areas)| + 1 && areas[..|old(areas)|] == old(areas)
      ensures areas[|old(areas)|] == a.(frames := areas[|old(areas)|].frames)
      ensures a.lazy ==> Outcome(true, Value(), ft.Value()) ==
                         DemandAll(Space(old(areas) + [a], old(pageTable)), old(ft.Value()), a.start, a.end)
      ensures forall v | In(a, v) :: v in pageTable || Exhausted(ft.Value())
      ensures forall v | In(a, v) && v in pageTable :: Contents(ft.Value(), pageTable[v].ppn) == ZeroPage
      ensures forall v | !In(a, v) :: (v in pageTable <==> v in old(pageTable)) && (v in pageTable ==> pageTable[v] == old(pageTable)[v])
    {
      hide SpaceOk, Ledger, Backed, Contents, AllocFrame, Exhausted, NextFrame, AreaAt, DemandFault, Free, PoolOk;
      AppendAreaOk(areas, a, pageTable);
      LedgerRefl(ft.Value(), pageTable);
      forall v | In(a, v) ensures v !in pageTable { FreeUnmapped(Value(), a.start, a.end, v); }
      var b := a;
      var v := a.start;
      while v < a.end
        invariant a.start <= v <= a.end && b == a.(frames := b.frames) && areas == old(areas)
        invariant SpaceOk(Space(areas + [b], pageTable)) && Backed(ft.Value(), pageTable)
        invariant a.lazy ==> Outcome(true, Space(areas + [b], pageTable), ft.Value()) ==
                             DemandAll(Space(old(areas) + [a], old(pageTable)), old(ft.Value()), a.start, v)
        invariant Ledger(old(ft.Value()), old(pageTable), ft.Value(), pageTable)
        invariant forall u | v <= u < a.end :: u !in pageTable
        invariant forall u | a.start <= u < v :: u in pageTable || Exhausted(ft.Value())
        invariant forall u | a.start <= u < v && u in pageTable :: Contents(ft.Value(), pageTable[u].ppn) == ZeroPage
        invariant forall u | !In(a, u) :: (u in pageTable <==> u in old(pageTable)) && (u in pageTable ==> pageTable[u] == old(pageTable)[u])
      {
        NotElsewhere(areas, a.start, a.end, v);
        b := MapNext(b, v, ft);
        v := v + 1;
      }
      areas := areas + [b];
    }

    /** One page of `push`. */
    method MapNext(b: MapArea, v: Vpn, ft: FrameTable) returns (c: MapArea)
      requires SpaceOk(Space(areas + [b], pageTable)) && Backed(ft.Value(), pageTable) && In(b, v) && v !in pageTable
      modifies this`pageTable, ft, ft.allocator
      ensures SpaceOk(Space(areas + [c], pageTable)) && Backed(ft.Value(), pageTable) && c == b.(frames := c.frames)
      ensures b.lazy && (forall i | 0 <= i < |areas| :: !In(areas[i], v)) ==>
                Outcome(true, Space(areas + [c], pageTable), ft.Value()) ==
                DemandFault(Space(areas + [b], old(pageTable)), old(ft.Value()), v).(ok := true)
      ensures forall pool, pt :: Ledger(pool, pt, old(ft.Value()), old(pageTable)) ==> Ledger(pool, pt, ft.Value(), pageTable)
      ensures forall u | u != v :: (u in pageTable <==> u in old(pageTable)) && (u in pageTable ==> pageTable[u] == old(pageTable)[u])
      ensures Exhausted(old(ft.Value())) ==> Exhausted(ft.Value())
      ensures v in pageTable || Exhausted(ft.Value())
      ensures v in pageTable ==> Contents(ft.Value(), pageTable[v].ppn) == ZeroPage
      ensures forall u | u in old(pageTable) :: Contents(ft.Value(), old(pageTable)[u].ppn) == Contents(old(ft.Value()), old(pageTable)[u].ppn)
    {
      hide SpaceOk, Ledger, AllocFrame, PoolOk, Count, Contents;
      ghost var s, pool := Space(areas + [b], pageTable), ft.Value();
      ghost var i := |areas|;
      assert s.areas[i] == b;
      c := MapOne(b, v, ft);
      if v in pageTable {
        assert s.areas[i := c] == areas + [c];
        SetFrameOk(s, i, v, Pte(NextFrame(pool), b.perm.w, b.perm.u));
        AllocLedger(pool, s.pt, v, b.perm.w, b.perm.u);
        AllocFresh(pool);
        forall u | u in s.pt ensures s.pt[u].ppn != NextFrame(pool) { MappedIsLive(pool, s.pt, u); }
      }
      forall p0, pt0 | Ledger(p0, pt0, pool, s.pt) ensures Ledger(p0, pt0, ft.Value(), pageTable) {
        if v in pageTable { LedgerTrans(p0, pt0, pool, s.pt, ft.Value(), pageTable); }
      }
    }

    static lemma MappedIsLive(pool: Pool, pt: PageMap, v: Vpn)
      requires Backed(pool, pt) && v in pt
      ensures pt[v].ppn in pool.refs
    {
      CountTwo(pt, v, v);
      assert Refs(pool, pt[v].ppn) >= 1;
    }

    static lemma NotElsewhere(areas: seq<MapArea>, lo: Vpn, hi: Vpn, v: Vpn)
      requires Free(areas, lo, hi) && lo <= v < hi
      ensures forall i | 0 <= i < |areas| :: !In(areas[i], v)
    {
    }

    static lemma FreeUnmapped(s: Space, lo: Vpn, hi: Vpn, v: Vpn)
      requires SpaceOk(s) && Free(s.areas, lo, hi) && lo <= v < hi
      ensures v !in s.pt
    {
      hide Find;
      FreeHasNone(s.areas, lo, hi, v);
      assert PageOk(s.areas, s.pt, v);
    }

    /** `append_heap_to`, in pages. It refuses exactly on a conflict with an area that is no heap. When it grows an
        existing heap, the bookkeeping invariant survives exactly when no second heap area lies in the way: a heap
        that `change_protection` split in two is grown over its own second part. */
    method AppendHeapTo(newEnd: Vpn, heapBottom: Vpn, ft: FrameTable) returns (ok: bool)
      requires Consistent(ft) && newEnd <= VPN_LIMIT
      requires var i := FindHeap(areas, 0);
               if i < |areas| then areas[i].lazy && areas[i].end <= newEnd else heapBottom <= newEnd
      modifies this, ft, ft.allocator
      ensures var i := FindHeap(old(areas), 0);
              var from := if i < |old(areas)| then old(areas)[i].end else heapBottom;
              && (ok <==> forall j | 0 <= j < |old(areas)| ::
                            old(areas)[j].areaType == Heap || old(areas)[j].end <= from || newEnd <= old(areas)[j].start)
              && (!ok ==> Value() == old(Value()) && ft.Value() == old(ft.Value()))
              && (ok && i < |old(areas)| ==>
                    && areas == old(areas)[i := old(areas)[i].(end := newEnd)]
                    && pageTable == old(pageTable) && ft.Value() == old(ft.Value())
                    && (Consistent(ft) <==> HeapsClear(old(areas), i, from, newEnd))
                    && (Consistent(ft) ==> IsExtended(old(Value()), Value(), i, newEnd)))
              && (ok && i == |old(areas)| ==>
                    && Consistent(ft) && Ledger(old(ft.Value()), old(pageTable), ft.Value(), pageTable)
                    && |areas| == i + 1 && areas[..i] == old(areas)
                    && (var a := areas[i];
                        && a.start == from && a.end == newEnd && a.perm == Perm(true, true, false, true)
                        && a.kind == Private && a.areaType == Heap && a.lazy && a.meta == None)
                    && Outcome(true, Value(), ft.Value()) ==
                       DemandAll(Space(old(areas) + [NewHeap(from, newEnd)], old(pageTable)), old(ft.Value()), from, newEnd))
    {
      hide PageOk, Ledger, Backed, FindHeap, Disjoint, Contents;
      var idx := FindHeap(areas, 0);
      var from := if idx < |areas| then areas[idx].end else heapBottom;
      var conflict := CheckConflict(from, newEnd);
      if conflict { return false; }
      if idx < |areas| {
        ExtendHeapExactly(Value(), idx, newEnd);
        areas := areas[idx := areas[idx].(end := newEnd)];
        return true;
      }
      assert Free(areas, heapBottom, newEnd) by { NoConflictIsFree(areas, heapBottom, newEnd); }
      Push(NewHeap(heapBottom, newEnd), ft);
      ok := true;
    }

    /** `heap_expand_conflicts`. */
    method CheckConflict(lo: Vpn, hi: Vpn) returns (r: bool)
      ensures r <==> HeapConflict(areas, lo, hi)
    {
      for i := 0 to |areas|
        invariant forall j | 0 <= j < i :: areas[j].areaType.Heap? || areas[j].start >= hi || areas[j].end <= lo
      {
        if !areas[i].areaType.Heap? && areas[i].start < hi && areas[i].end > lo { return true; }
      }
      r := false;
    }

    static lemma NoConflictIsFree(areas: seq<MapArea>, lo: Vpn, hi: Vpn)
      requires FindHeap(areas, 0) == |areas| && !HeapConflict(areas, lo, hi)
      ensures Free(areas, lo, hi)
    {
      hide FindHeap;
    }

    static lemma ExtendHeapExactly(s: Space, idx: nat, newEnd: Vpn)
      requires SpaceOk(s) && idx < |s.areas| && s.areas[idx].end <= newEnd <= VPN_LIMIT
      requires !HeapConflict(s.areas, s.areas[idx].end, newEnd)
      ensures SpaceOk(s.(areas := s.areas[idx := s.areas[idx].(end := newEnd)])) <==>
              HeapsClear(s.areas, idx, s.areas[idx].end, newEnd)
    {
      hide PageOk, Disjoint;
      ExtendAreaExactly(s.areas, idx, newEnd);
      var bs := s.areas[idx := s.areas[idx].(end := newEnd)];
      if AreasOk(bs) { ExtendAreaPages(s.areas, s.pt, idx, newEnd); }
    }

    /** `shrink_heap_to`, in pages: the first heap area ends at `newEnd`, its pages from there on are unmapped.
        On a split heap `newEnd` can lie beyond the first part, which then grows instead; the invariant survives
        exactly when nothing lies in the way. */
    method ShrinkHeapTo(newEnd: Vpn, ft: FrameTable) returns (ok: bool)
      requires Consistent(ft) && newEnd <= VPN_LIMIT
      requires FindHeap(areas, 0) < |areas| ==> areas[FindHeap(areas, 0)].start <= newEnd
      modifies this, ft, ft.allocator
      ensures var i := FindHeap(old(areas), 0);
              && (ok <==> i < |old(areas)|)
              && (!ok ==> Value() == old(Value()) && ft.Value() == old(ft.Value()))
              && (ok ==> Ledger(old(ft.Value()), old(pageTable), ft.Value(), pageTable) && ft.mem == old(ft.mem))
              && (ok && newEnd <= old(areas)[i].end ==>
                    && Consistent(ft)
                    && areas == old(areas)[i := Trim(old(areas)[i], old(areas)[i].start, newEnd)]
                    && IsCut(old(Value()), old(ft.Value()), Value(), ft.Value(), i, newEnd))
              && (ok && newEnd > old(areas)[i].end ==>
                    && areas == old(areas)[i := old(areas)[i].(end := newEnd)] && pageTable == old(pageTable)
                    && (Consistent(ft) <==>
                          forall j, v | 0 <= j < |old(areas)| && j != i && old(areas)[i].end <= v < newEnd :: !In(old(areas)[j], v))
                    && (Consistent(ft) && old(areas)[i].lazy ==> IsExtended(old(Value()), Value(), i, newEnd)))
    {
      hide PageOk, Ledger, Backed, FindHeap, Disjoint;
      var idx := FindHeap(areas, 0);
      if idx == |areas| { return false; }
      var a := areas[idx];
      ok := true;
      if newEnd <= a.end {
        UnmapPages(idx, newEnd, a.end, ft);
        ShrinkOk(Value(), idx, newEnd);
        areas := areas[idx := areas[idx].(end := newEnd)];
        assert areas[idx].frames == Keep(a.frames, a.start, newEnd);
        BackedPool(ft.Value(), pageTable);
      } else {
        LedgerRefl(ft.Value(), pageTable);
        ExtendAreaExactly(areas, idx, newEnd);
        ghost var bs := areas[idx := a.(end := newEnd)];
        if AreasOk(bs) { ExtendAreaPages(areas, pageTable, idx, newEnd); }
        areas := areas[idx := a.(end := newEnd)];
      }
    }

    static lemma BackedPool(pool: Pool, pt: PageMap)
      requires Backed(pool, pt)
      ensures PoolOk(pool)
    {
    }

    static lemma ShrinkOk(s: Space, idx: nat, newEnd: Vpn)
      requires SpaceOk(s) && idx < |s.areas| && s.areas[idx].start <= newEnd <= s.areas[idx].end
      requires forall v | v in s.areas[idx].frames :: v < newEnd
      ensures SpaceOk(s.(areas := s.areas[idx := s.areas[idx].(end := newEnd)]))
    {
      hide Find, Disjoint, AreaAt;
      var a := s.areas[idx];
      var b := a.(end := newEnd);
      var pre, post := s.areas[..idx], s.areas[idx + 1..];
      assert s.areas == pre + [a] + post;
      assert s.areas[idx := b] == pre + [b] + post;
      assert AreaOk(a);
      forall v | In(a, v) ensures PageOk([b], s.pt, v) {
        assert PageOk(s.areas, s.pt, v);
        FindUnique(s.areas, v, idx);
        AreaAtSingle(b, v);
        PageOkAt([b], s.pt, v);
      }
      SingleOk(b);
      ReplaceArea(pre, a, [b], post, s.pt, s.pt);
    }

    static lemma SingleOk(b: MapArea)
      requires AreaOk(b)
      ensures AreasOk([b])
    {
    }
  }
}
