/** Copies between the kernel and user memory, page by page, with faults resolved on the way. */
module UserMem {
  import opened Collections
  import opened Blocks
  import opened Frames
  import opened AddressSpaces
  import opened AreaLists
  import opened PageTables
  import opened MemorySets
  import opened Cow

  /** Addresses this far apart share their translation. */
  const SPAN: nat := VPN_LIMIT * PAGE_SIZE

  /** The page-table key of an address. */
  function PageOf(va: nat): (v: Vpn) { (va / PAGE_SIZE) % VPN_LIMIT }
  function OffOf(va: nat): (o: nat)
    ensures o < PAGE_SIZE
  {
    va % PAGE_SIZE
  }

  /** The access check on one address. */
  predicate UserPage(s: Space, va: nat, writable: bool) {
    PageOf(va) in s.pt && var e := s.pt[PageOf(va)]; e.u && (writable ==> e.w) && e.ppn < MAX_USER_PPN
  }

  /** A range can be accessed: it does not reach the last page of the address space, and each page allows it. */
  ghost predicate Accessible(s: Space, ptr: nat, len: nat, writable: bool) {
    len == 0 || (ptr + len <= USIZE - PAGE_SIZE && forall va | ptr <= va < ptr + len :: UserPage(s, va, writable))
  }

  /** Address `va` does not lie in the last page of the address space, and translates, by its page number modulo 2^27,
      to an entry with U, with W if asked, and to memory below 0xD000_0000. */
  ghost predicate Backs(s: Space, va: nat, writable: bool) {
    && va + 4096 < 0x1_0000_0000_0000_0000 && (va / 4096) % 0x800_0000 in s.pt
    && var e := s.pt[(va / 4096) % 0x800_0000]; e.u && (e.w || !writable) && e.ppn * 4096 < 0xD000_0000
  }

  /** What the checks promise of a range, address by address. */
  lemma AccessibleExactly(s: Space, ptr: nat, len: nat, writable: bool)
    ensures Accessible(s, ptr, len, writable) <==> forall va | ptr <= va < ptr + len :: Backs(s, va, writable)
  {
    if len > 0 && forall va | ptr <= va < ptr + len :: Backs(s, va, writable) {
      assert Backs(s, ptr + len - 1, writable);
      forall va | ptr <= va < ptr + len ensures UserPage(s, va, writable) { assert Backs(s, va, writable); }
    }
    if Accessible(s, ptr, len, writable) {
      forall va | ptr <= va < ptr + len ensures Backs(s, va, writable) { assert UserPage(s, va, writable); }
    }
  }

  // ---------- what the copies compute ----------

  /** `data` stored byte by byte from address `ptr`. */
  function CopyBytes(s: Space, pool: Pool, ptr: nat, data: seq<Byte>): (r: Pool)
    decreases |data|
  {
    if data == [] then pool
    else
      var n := |data| - 1;
      var p := CopyBytes(s, pool, ptr, data[..n]);
      if PageOf(ptr + n) in s.pt then StoreByte(s, p, PageOf(ptr + n), OffOf(ptr + n), data[n]) else p
  }

  function ByteAt(s: Space, pool: Pool, va: nat): (b: Byte) {
    if PageOf(va) in s.pt then Contents(pool, s.pt[PageOf(va)].ppn)[OffOf(va)] else 0
  }

  function ReadBytes(s: Space, pool: Pool, ptr: nat, len: nat): (r: seq<Byte>)
    ensures |r| == len && forall i | 0 <= i < len :: r[i] == ByteAt(s, pool, ptr + i)
  {
    seq<Byte>(len, i requires 0 <= i < len => ByteAt(s, pool, ptr + i))
  }

  /** The next page, or the next byte where the page number wraps. */
  function NextVa(va: nat): (r: nat)
    ensures r > va
  {
    var next := ((va / PAGE_SIZE + 1) * PAGE_SIZE) % USIZE;
    if next > va + 1 then next else va + 1
  }

  predicate MappedUser(s: Space, va: nat) {
    PageOf(va) in s.pt && s.pt[PageOf(va)].u
  }

  /** The demand fault a page may need first. */
  function Materialise(s: Space, pool: Pool, va: nat): (r: Outcome) {
    if PageOf(va) in s.pt then Outcome(true, s, pool) else DemandFault(s, pool, va / PAGE_SIZE)
  }

  /** One page of `try_resolve_user_cow_writable`. */
  function ResolvePage(s: Space, pool: Pool, va: nat): (r: Outcome) {
    var d := Materialise(s, pool, va);
    if !d.ok || !MappedUser(d.space, va) then d.(ok := false)
    else
      var c := if d.space.pt[PageOf(va)].w then d else CowFault(d.space, d.pool, va / PAGE_SIZE);
      c.(ok := c.ok && MappedUser(c.space, va) && c.space.pt[PageOf(va)].w)
  }

  function ResolveWritable(s: Space, pool: Pool, va: nat, end: nat): (r: Outcome)
    decreases if va < end then end - va else 0
  {
    if va >= end then Outcome(true, s, pool)
    else
      var r := ResolvePage(s, pool, va);
      if r.ok then ResolveWritable(r.space, r.pool, NextVa(va), end) else r
  }

  function ResolveReadable(s: Space, pool: Pool, va: nat, end: nat): (r: Outcome)
    decreases if va < end then end - va else 0
  {
    if va >= end then Outcome(true, s, pool)
    else
      var d := Materialise(s, pool, va);
      if d.ok && MappedUser(d.space, va) then ResolveReadable(d.space, d.pool, NextVa(va), end) else d.(ok := false)
  }

  /** `try_resolve_user_cow_writable` and `try_resolve_user_readable`. */
  function TryResolve(s: Space, pool: Pool, ptr: nat, len: nat, writable: bool): (r: Outcome) {
    if ptr + len >= USIZE then Outcome(false, s, pool)
    else if writable then ResolveWritable(s, pool, ptr, ptr + len)
    else ResolveReadable(s, pool, ptr, ptr + len)
  }

  /** The state in which the bytes are accessed: as it is, or with faults resolved. */
  ghost function Prepared(s: Space, pool: Pool, ptr: nat, len: nat, writable: bool): (r: Outcome) {
    if Accessible(s, ptr, len, writable) then Outcome(true, s, pool)
    else
      var r := TryResolve(s, pool, ptr, len, writable);
      r.(ok := r.ok && Accessible(r.space, ptr, len, writable))
  }

  /** The outcome of a copy to user memory. */
  ghost function CopiedTo(s: Space, pool: Pool, ptr: nat, data: seq<Byte>): (r: Outcome) {
    var r := Prepared(s, pool, ptr, |data|, true);
    if r.ok then r.(pool := CopyBytes(r.space, r.pool, ptr, data)) else r
  }

  // ---------- over all processes ----------

  ghost predicate SameKinds(s: Space, t: Space) {
    forall v :: IsPrivate(t, v) == IsPrivate(s, v)
  }

  lemma SameKindsRefl(s: Space)
    ensures SameKinds(s, s)
  {
  }

  lemma DemandKinds(s: Space, pool: Pool, v: Vpn)
    requires SpaceOk(s)
    ensures SameKinds(s, DemandFault(s, pool, v).space)
  {
    hide Find, FindLazy, SpaceOk, AllocFrame, NextFrame;
    var i := FindLazy(s.areas, v, 0);
    if DemandFault(s, pool, v).ok { SetFrameOk(s, i, v, Pte(NextFrame(pool), s.areas[i].perm.w, s.areas[i].perm.u)); }
  }

  lemma CowKinds(s: Space, pool: Pool, v: Vpn)
    requires SpaceOk(s)
    ensures SameKinds(s, CowFault(s, pool, v).space)
  {
    hide Find, SpaceOk, AllocFrame, NextFrame, DropRef, Contents;
    var i := Find(s.areas, v);
    if i < |s.areas| && s.areas[i].perm.w && v in s.pt && !Exhausted(pool) {
      OwnerOf(s, v);
      SetFrameOk(s, i, v, Pte(NextFrame(pool), true, s.pt[v].u));
    }
  }

  lemma ProcOk(w: World, k: nat)
    requires WorldOk(w) && k < |w.procs|
    ensures SpaceOk(w.procs[k])
  {
  }

  lemma MaterialiseOk(w: World, k: nat, va: nat)
    requires WorldOk(w) && k < |w.procs|
    ensures var r := Materialise(w.procs[k], w.pool, va);
            && WorldOk(Replace(w, k, r.space, r.pool)) && Abs(Replace(w, k, r.space, r.pool)) == Abs(w)
            && SameBytes(w, Replace(w, k, r.space, r.pool)) && SameKinds(w.procs[k], r.space)
  {
    hide WorldOk, Abs, DemandFault, IsPrivate, PageBytes;
    DemandFaultOk(w, k, va / PAGE_SIZE);
    ProcOk(w, k);
    DemandKinds(w.procs[k], w.pool, va / PAGE_SIZE);
    assert w.procs[k := w.procs[k]] == w.procs;
  }

  lemma ResolvePageOk(w: World, k: nat, va: nat)
    requires WorldOk(w) && k < |w.procs|
    ensures var r := ResolvePage(w.procs[k], w.pool, va);
            && WorldOk(Replace(w, k, r.space, r.pool)) && Abs(Replace(w, k, r.space, r.pool)) == Abs(w)
            && SameBytes(w, Replace(w, k, r.space, r.pool)) && SameKinds(w.procs[k], r.space)
  {
    hide WorldOk, Abs, DemandFault, CowFault, Materialise, IsPrivate, SameBytes;
    MaterialiseOk(w, k, va);
    var d := Materialise(w.procs[k], w.pool, va);
    var x := Replace(w, k, d.space, d.pool);
    CowFaultOk(x, k, va / PAGE_SIZE);
    ProcOk(x, k);
    CowKinds(d.space, d.pool, va / PAGE_SIZE);
    SameBytesTrans(w, x, Replace(x, k, CowFault(d.space, d.pool, va / PAGE_SIZE).space, CowFault(d.space, d.pool, va / PAGE_SIZE).pool));
    ReplaceTwice(w, k, d.space, d.pool, CowFault(d.space, d.pool, va / PAGE_SIZE).space, CowFault(d.space, d.pool, va / PAGE_SIZE).pool);
  }

  /** Resolving faults changes nobody's view and no byte of any page. */
  lemma {:induction false} ResolveOk(w: World, k: nat, va: nat, end: nat, writable: bool)
    requires WorldOk(w) && k < |w.procs|
    ensures var r := if writable then ResolveWritable(w.procs[k], w.pool, va, end) else ResolveReadable(w.procs[k], w.pool, va, end);
            && WorldOk(Replace(w, k, r.space, r.pool)) && Abs(Replace(w, k, r.space, r.pool)) == Abs(w)
            && SameBytes(w, Replace(w, k, r.space, r.pool)) && SameKinds(w.procs[k], r.space)
    decreases if va < end then end - va else 0
  {
    hide WorldOk, Abs, ResolvePage, Materialise, IsPrivate, SameBytes;
    if va >= end {
      assert Replace(w, k, w.procs[k], w.pool) == w;
      SameBytesRefl(w);
    } else {
      ResolvePageOk(w, k, va);
      MaterialiseOk(w, k, va);
      var r := if writable then ResolvePage(w.procs[k], w.pool, va) else Materialise(w.procs[k], w.pool, va);
      var x := Replace(w, k, r.space, r.pool);
      ResolveOk(x, k, NextVa(va), end, writable);
      var t := if writable then ResolveWritable(r.space, r.pool, NextVa(va), end) else ResolveReadable(r.space, r.pool, NextVa(va), end);
      SameBytesTrans(w, x, Replace(x, k, t.space, t.pool));
      ReplaceTwice(w, k, r.space, r.pool, t.space, t.pool);
    }
  }

  lemma PreparedOk(w: World, k: nat, ptr: nat, len: nat, writable: bool)
    requires WorldOk(w) && k < |w.procs|
    ensures var r := Prepared(w.procs[k], w.pool, ptr, len, writable);
            && WorldOk(Replace(w, k, r.space, r.pool)) && Abs(Replace(w, k, r.space, r.pool)) == Abs(w)
            && SameBytes(w, Replace(w, k, r.space, r.pool)) && SameKinds(w.procs[k], r.space)
  {
    hide WorldOk, Abs, SameKinds, SameBytes, ResolveWritable, ResolveReadable, Accessible;
    assert Replace(w, k, w.procs[k], w.pool) == w;
    SameBytesRefl(w);
    assert SameKinds(w.procs[k], w.procs[k]) by { SameKindsRefl(w.procs[k]); }
    if !Accessible(w.procs[k], ptr, len, writable) { ResolveOk(w, k, ptr, ptr + len, writable); }
  }

  /** The same bytes written on the eager machine. */
  ghost function EagerWrite(e: Eager, ptr: nat, data: seq<Byte>): (r: Eager)
    decreases |data|
  {
    if data == [] then e
    else var n := |data| - 1; EagerStore(EagerWrite(e, ptr, data[..n]), PageOf(ptr + n), OffOf(ptr + n), data[n])
  }

  lemma AccessiblePrefix(s: Space, ptr: nat, n: nat, writable: bool)
    requires Accessible(s, ptr, n + 1, writable)
    ensures Accessible(s, ptr, n, writable) && UserPage(s, ptr + n, writable)
  {
  }

  lemma {:induction false} CopyBytesOk(w: World, k: nat, ptr: nat, data: seq<Byte>)
    requires WorldOk(w) && k < |w.procs| && Accessible(w.procs[k], ptr, |data|, true)
    ensures var x := w.(pool := CopyBytes(w.procs[k], w.pool, ptr, data));
            WorldOk(x) && Abs(x) == Abs(w)[k := EagerWrite(Abs(w)[k], ptr, data)]
    decreases |data|
  {
    hide WorldOk, View, StoreByte, EagerStore, Accessible;
    if data == [] {
      assert w.(pool := w.pool) == w;
      assert Abs(w)[k := Abs(w)[k]] == Abs(w);
    } else {
      var n := |data| - 1;
      AccessiblePrefix(w.procs[k], ptr, n, true);
      CopyBytesOk(w, k, ptr, data[..n]);
      StoreOk(w.(pool := CopyBytes(w.procs[k], w.pool, ptr, data[..n])), k, PageOf(ptr + n), OffOf(ptr + n), data[n]);
    }
  }

  /** A copy to user memory writes every byte, or leaves every byte of every process as it was. */
  lemma CopyAllOrNothing(w: World, k: nat, ptr: nat, data: seq<Byte>)
    requires WorldOk(w) && k < |w.procs|
    ensures var r := CopiedTo(w.procs[k], w.pool, ptr, data);
            var x := Replace(w, k, r.space, r.pool);
            && WorldOk(x)
            && Abs(x) == (if r.ok then Abs(w)[k := EagerWrite(Abs(w)[k], ptr, data)] else Abs(w))
            && (!r.ok ==> SameBytes(w, x))
  {
    hide WorldOk, Abs, Prepared, Accessible, CopyBytes, EagerWrite, SameBytes;
    PreparedOk(w, k, ptr, |data|, true);
    var r := Prepared(w.procs[k], w.pool, ptr, |data|, true);
    if r.ok {
      PreparedAccess(w.procs[k], w.pool, ptr, |data|, true);
      CopyBytesOk(Replace(w, k, r.space, r.pool), k, ptr, data);
    }
  }

  lemma PreparedAccess(s: Space, pool: Pool, ptr: nat, len: nat, writable: bool)
    ensures var r := Prepared(s, pool, ptr, len, writable); r.ok ==> Accessible(r.space, ptr, len, writable)
  {
  }

  // ---------- round trip ----------

  /** Addresses less than `SPAN` apart have different places. */
  lemma PlacesDiffer(a: nat, b: nat)
    requires a < b < a + SPAN
    ensures PageOf(a) != PageOf(b) || OffOf(a) != OffOf(b)
  {
    if OffOf(a) == OffOf(b) {
      var x, y := a / PAGE_SIZE, b / PAGE_SIZE;
      assert a == x * PAGE_SIZE + OffOf(a) && b == y * PAGE_SIZE + OffOf(b);
      assert x < y < x + VPN_LIMIT;
      if x % VPN_LIMIT == y % VPN_LIMIT { NoWrap(x, y); }
    }
  }

  lemma NoWrap(x: nat, y: nat)
    requires x < y < x + VPN_LIMIT
    ensures x % VPN_LIMIT != y % VPN_LIMIT
  {
    var p, q := x / VPN_LIMIT, y / VPN_LIMIT;
    assert x == p * VPN_LIMIT + x % VPN_LIMIT && y == q * VPN_LIMIT + y % VPN_LIMIT;
  }

  ghost predicate WritableIn(e: Eager, ptr: nat, len: nat) {
    forall va | ptr <= va < ptr + len :: PageOf(va) in e && e[PageOf(va)].writable
  }

  ghost predicate PrivateRange(s: Space, ptr: nat, len: nat) {
    forall va | ptr <= va < ptr + len :: IsPrivate(s, PageOf(va))
  }

  lemma StoreKeepsWritable(e: Eager, ptr: nat, len: nat, v: Vpn, off: nat, b: Byte)
    requires WritableIn(e, ptr, len) && off < PAGE_SIZE
    ensures WritableIn(EagerStore(e, v, off, b), ptr, len)
  {
    hide PageOf;
  }

  lemma {:induction false} EagerWriteKeeps(e: Eager, ptr: nat, data: seq<Byte>, len: nat)
    requires WritableIn(e, ptr, len)
    ensures WritableIn(EagerWrite(e, ptr, data), ptr, len)
    decreases |data|
  {
    hide PageOf, OffOf, WritableIn, EagerStore;
    if data != [] {
      var n := |data| - 1;
      EagerWriteKeeps(e, ptr, data[..n], len);
      StoreKeepsWritable(EagerWrite(e, ptr, data[..n]), ptr, len, PageOf(ptr + n), OffOf(ptr + n), data[n]);
    }
  }

  lemma {:induction false} EagerWriteAt(e: Eager, ptr: nat, data: seq<Byte>, i: nat)
    requires i < |data| <= SPAN
    requires WritableIn(e, ptr, |data|)
    ensures var r := EagerWrite(e, ptr, data);
            && WritableIn(r, ptr, |data|)
            && PageOf(ptr + i) in r && r[PageOf(ptr + i)].content[OffOf(ptr + i)] == data[i]
    decreases |data|
  {
    hide PageOf, OffOf;
    var n := |data| - 1;
    EagerWriteKeeps(e, ptr, data, |data|);
    EagerWriteKeeps(e, ptr, data[..n], |data|);
    if i < n {
      EagerWriteAt(e, ptr, data[..n], i);
      PlacesDiffer(ptr + i, ptr + n);
    }
    assert PageOf(ptr + n) in EagerWrite(e, ptr, data[..n]);
  }

  /** A private page the access check admits is in the view, writable, with the contents of its frame. */
  lemma AccessedIsSeen(s: Space, pool: Pool, va: nat)
    requires SpaceOk(s) && UserPage(s, va, true) && IsPrivate(s, PageOf(va))
    ensures var e := View(s, pool);
            PageOf(va) in e && e[PageOf(va)].writable && e[PageOf(va)].content == Contents(pool, s.pt[PageOf(va)].ppn)
  {
    hide Find, Contents, PageOf, SpaceOk;
    OwnerOf(s, PageOf(va));
    assert Present(s, PageOf(va));
  }

  /** Over a private range, the bytes read back after a successful copy are the bytes written. */
  lemma CopyRoundTrip(w: World, k: nat, ptr: nat, data: seq<Byte>)
    requires WorldOk(w) && k < |w.procs| && |data| <= SPAN
    requires PrivateRange(w.procs[k], ptr, |data|)
    ensures var r := CopiedTo(w.procs[k], w.pool, ptr, data);
            r.ok ==> && Accessible(r.space, ptr, |data|, false)
                     && ReadBytes(r.space, r.pool, ptr, |data|) == data
  {
    hide WorldOk, Prepared, CopyBytes, EagerWrite, View, PageOf, OffOf, IsPrivate, Contents;
    var s, r := w.procs[k], CopiedTo(w.procs[k], w.pool, ptr, data);
    var d := Prepared(s, w.pool, ptr, |data|, true);
    if r.ok && data != [] {
      CopyAllOrNothing(w, k, ptr, data);
      PreparedAccess(s, w.pool, ptr, |data|, true);
      PreparedOk(w, k, ptr, |data|, true);
      ProcOk(Replace(w, k, d.space, d.pool), k);
      var e := View(s, w.pool);
      assert Abs(Replace(w, k, d.space, d.pool))[k] == View(d.space, d.pool);
      assert e == View(d.space, d.pool);
      assert Abs(Replace(w, k, r.space, r.pool))[k] == View(r.space, r.pool);
      assert View(r.space, r.pool) == EagerWrite(e, ptr, data);
      forall va | ptr <= va < ptr + |data|
        ensures PageOf(va) in e && e[PageOf(va)].writable && UserPage(r.space, va, false)
        ensures PageOf(va) in View(r.space, r.pool) && UserPage(r.space, va, true)
                && View(r.space, r.pool)[PageOf(va)].content == Contents(r.pool, r.space.pt[PageOf(va)].ppn)
      {
        assert UserPage(d.space, va, true);
        assert IsPrivate(d.space, PageOf(va));
        AccessedIsSeen(d.space, d.pool, va);
        AccessedIsSeen(r.space, r.pool, va);
      }
      forall i | 0 <= i < |data| ensures ByteAt(r.space, r.pool, ptr + i) == data[i] {
        assert UserPage(r.space, ptr + i, true);
        EagerWriteAt(e, ptr, data, i);
      }
    }
  }

  // ---------- the range checks ----------

  /** `user_write_range_mapped`. */
  method UserWriteRangeMapped(ms: MemorySet, ptr: nat, len: nat, writable: bool) returns (r: bool)
    ensures r <==> Accessible(ms.Value(), ptr, len, writable)
  {
    hide PageOf, UserPage;
    if len == 0 { return true; }
    var start, end := ptr, ptr + len;
    if end >= USIZE { return false; }
    while start < end
      invariant ptr <= start <= end
      invariant start < end ==> start < USIZE
      invariant start == end ==> end <= USIZE - PAGE_SIZE
      invariant forall va | ptr <= va < start :: UserPage(ms.Value(), va, writable)
    {
      var ok := CheckPage(ms, start, writable);
      if !ok { return false; }
      var nextPage := start + (PAGE_SIZE - OffOf(start));
      if nextPage >= USIZE { LastPage(start, end); return false; }
      SamePage(ms.Value(), start, writable);
      start := if nextPage < end then nextPage else end;
    }
    return true;
  }

  method CheckPage(ms: MemorySet, va: nat, writable: bool) returns (ok: bool)
    ensures ok <==> UserPage(ms.Value(), va, writable)
  {
    var v := PageOf(va);
    if v !in ms.pageTable { return false; }
    var e := ms.pageTable[v];
    return e.u && (writable ==> e.w) && e.ppn < MAX_USER_PPN;
  }

  lemma LastPage(start: nat, end: nat)
    requires start < end && start + (PAGE_SIZE - OffOf(start)) >= USIZE
    ensures end > USIZE - PAGE_SIZE
  {
  }

  /** The addresses up to the next page boundary share the page of `start`. */
  lemma SamePage(s: Space, start: nat, writable: bool)
    ensures var next := start + (PAGE_SIZE - OffOf(start));
            && next % PAGE_SIZE == 0 && next > start
            && (forall va | start <= va < next :: PageOf(va) == PageOf(start) && OffOf(va) == OffOf(start) + (va - start))
            && (forall va | start <= va < next :: UserPage(s, va, writable) == UserPage(s, start, writable))
  {
    var q := start / PAGE_SIZE;
    assert start == q * PAGE_SIZE + OffOf(start);
    var next := (q + 1) * PAGE_SIZE;
    forall va | start <= va < next ensures va / PAGE_SIZE == q && OffOf(va) == OffOf(start) + (va - start) {
      assert va == q * PAGE_SIZE + (OffOf(start) + (va - start));
    }
  }

  // ---------- slices of user pages ----------

  /** Bytes `lo..hi` of frame `ppn`. */
  datatype Slice = Slice(ppn: Ppn, lo: nat, hi: nat)

  function Size(c: Slice): (n: int) { c.hi - c.lo }

  /** `c` holds the addresses from `va` on. */
  ghost predicate SliceAt(s: Space, c: Slice, va: nat) {
    && c.lo < c.hi <= PAGE_SIZE
    && forall x | va <= x < va + Size(c) :: PageOf(x) in s.pt && s.pt[PageOf(x)].ppn == c.ppn && OffOf(x) == c.lo + (x - va)
  }

  /** The slices, in order, hold exactly the addresses `ptr..ptr + len`. */
  ghost predicate Covers(s: Space, slices: seq<Slice>, ptr: nat, len: nat)
    decreases |slices|
  {
    if slices == [] then len == 0
    else
      var c := slices[|slices| - 1];
      0 < Size(c) <= len && SliceAt(s, c, ptr + len - Size(c)) && Covers(s, slices[..|slices| - 1], ptr, len - Size(c))
  }

  lemma CoversOneMore(s: Space, slices: seq<Slice>, ptr: nat, len: nat, c: Slice)
    requires Covers(s, slices, ptr, len) && SliceAt(s, c, ptr + len)
    ensures Covers(s, slices + [c], ptr, len + Size(c))
  {
    hide SliceAt;
    assert c.lo < c.hi by { SliceSize(s, c, ptr + len); }
    assert (slices + [c])[..|slices|] == slices;
  }

  lemma SliceSize(s: Space, c: Slice, va: nat)
    requires SliceAt(s, c, va)
    ensures c.lo < c.hi <= PAGE_SIZE
  {
  }

  /** The first `k` slices hold a prefix of the range. */
  lemma {:induction false} CoversPrefix(s: Space, slices: seq<Slice>, ptr: nat, len: nat, k: nat) returns (n: nat)
    requires Covers(s, slices, ptr, len) && k <= |slices|
    ensures Covers(s, slices[..k], ptr, n) && n <= len && (k == |slices| ==> n == len)
    ensures k < |slices| ==> n + Size(slices[k]) <= len && SliceAt(s, slices[k], ptr + n)
    decreases |slices|
  {
    hide SliceAt;
    if k == |slices| {
      assert slices[..k] == slices;
      n := len;
    } else {
      var last := |slices| - 1;
      var c := slices[last];
      n := CoversPrefix(s, slices[..last], ptr, len - Size(c), k);
      assert slices[..last][..k] == slices[..k];
    }
  }

  lemma CoversUnique(s: Space, slices: seq<Slice>, ptr: nat, m: nat, n: nat)
    requires Covers(s, slices, ptr, m) && Covers(s, slices, ptr, n)
    ensures m == n
    decreases |slices|
  {
    hide SliceAt;
    if slices != [] {
      var c := slices[|slices| - 1];
      CoversUnique(s, slices[..|slices| - 1], ptr, m - Size(c), n - Size(c));
    }
  }

  /** `translated_byte_buffer_checked`: slices of the whole range, exactly when it can be accessed. */
  method TranslatedByteBufferChecked(ms: MemorySet, ptr: nat, len: nat, writable: bool) returns (r: Option<seq<Slice>>)
    ensures r.Some? <==> Accessible(ms.Value(), ptr, len, writable)
    ensures r.Some? ==> Covers(ms.Value(), r.value, ptr, len)
  {
    hide PageOf, UserPage, SliceAt;
    if len == 0 { return Some([]); }
    var start, end := ptr, ptr + len;
    if end >= USIZE { return None; }
    var v: seq<Slice> := [];
    while start < end
      invariant ptr <= start <= end && Covers(ms.Value(), v, ptr, start - ptr)
      invariant start < end ==> start < USIZE
      invariant start == end ==> end <= USIZE - PAGE_SIZE
      invariant forall va | ptr <= va < start :: UserPage(ms.Value(), va, writable)
    {
      var ok := CheckPage(ms, start, writable);
      if !ok { return None; }
      UserPageMapped(ms.Value(), start, writable);
      var ppn := ms.pageTable[PageOf(start)].ppn;
      var nextPage := start + (PAGE_SIZE - OffOf(start));
      if nextPage >= USIZE { LastPage(start, end); return None; }
      var chunkEnd := if nextPage < end then nextPage else end;
      var endOffset := if chunkEnd == nextPage then PAGE_SIZE else OffOf(chunkEnd);
      var c := Slice(ppn, OffOf(start), endOffset);
      SamePage(ms.Value(), start, writable);
      MakeSlice(ms.Value(), start, chunkEnd, c);
      CoversOneMore(ms.Value(), v, ptr, start - ptr, c);
      v := v + [c];
      start := chunkEnd;
    }
    r := Some(v);
  }

  lemma UserPageMapped(s: Space, va: nat, writable: bool)
    requires UserPage(s, va, writable)
    ensures PageOf(va) in s.pt
  {
  }

  lemma MakeSlice(s: Space, start: nat, chunkEnd: nat, c: Slice)
    requires PageOf(start) in s.pt && s.pt[PageOf(start)].ppn == c.ppn && c.lo == OffOf(start)
    requires var next := start + (PAGE_SIZE - OffOf(start));
             start < chunkEnd <= next && c.hi == if chunkEnd == next then PAGE_SIZE else OffOf(chunkEnd)
    ensures SliceAt(s, c, start) && start + Size(c) == chunkEnd
  {
    hide PageOf, OffOf;
    SamePage(s, start, false);
  }

  // ---------- copying slices ----------

  function Splice(page: Page, lo: nat, bytes: seq<Byte>): (r: Page)
    requires lo + |bytes| <= PAGE_SIZE
  {
    page[..lo] + bytes + page[lo + |bytes|..]
  }

  function WriteSlice(pool: Pool, ppn: Ppn, lo: nat, bytes: seq<Byte>): (r: Pool)
    requires lo + |bytes| <= PAGE_SIZE
  {
    WritePage(pool, ppn, Splice(Contents(pool, ppn), lo, bytes))
  }

  /** Copying a slice at once is copying its bytes one by one. */
  lemma {:induction false} SliceIsBytes(s: Space, pool: Pool, ptr: nat, data: seq<Byte>, off: nat, c: Slice, m: nat)
    requires SliceAt(s, c, ptr + off) && off + Size(c) <= |data| && 0 < m <= Size(c)
    ensures CopyBytes(s, pool, ptr, data[..off + m]) ==
            WriteSlice(CopyBytes(s, pool, ptr, data[..off]), c.ppn, c.lo, data[off..off + m])
    decreases m
  {
    hide PageOf, OffOf;
    var n := off + m - 1;
    assert data[..off + m][..n] == data[..n] && data[..off + m][n] == data[n];
    assert PageOf(ptr + n) in s.pt && s.pt[PageOf(ptr + n)].ppn == c.ppn && OffOf(ptr + n) == c.lo + (m - 1);
    var p := CopyBytes(s, pool, ptr, data[..off]);
    assert data[off..off + m] == data[off..n] + [data[n]];
    SpliceOne(Contents(p, c.ppn), c.lo, data[off..n], data[n]);
    if m == 1 {
      assert data[off..n] == [];
      assert Splice(Contents(p, c.ppn), c.lo, []) == Contents(p, c.ppn);
    } else {
      SliceIsBytes(s, pool, ptr, data, off, c, m - 1);
    }
  }

  lemma SpliceOne(page: Page, lo: nat, bytes: seq<Byte>, b: Byte)
    requires lo + |bytes| < PAGE_SIZE
    ensures Splice(page, lo, bytes + [b]) == Splice(page, lo, bytes)[lo + |bytes| := b]
  {
  }

  /** Copies `bytes` into frame `ppn`. */
  method FillSlice(ft: FrameTable, ppn: Ppn, lo: nat, bytes: seq<Byte>)
    requires lo + |bytes| <= PAGE_SIZE
    modifies ft`mem
    ensures ft.Value() == WriteSlice(old(ft.Value()), ppn, lo, bytes)
  {
    var page := if ppn in ft.mem then ft.mem[ppn] else ZeroPage;
    ft.mem := ft.mem[ppn := Splice(page, lo, bytes)];
  }

  /** The copy loop of `copy_to_user`. */
  method CopySlices(ms: MemorySet, ft: FrameTable, slices: seq<Slice>, ptr: nat, data: seq<Byte>) returns (ok: bool)
    requires Covers(ms.Value(), slices, ptr, |data|)
    modifies ft`mem
    ensures ok && ft.Value() == CopyBytes(ms.Value(), old(ft.Value()), ptr, data)
  {
    hide SliceAt, CopyBytes, WriteSlice;
    ghost var s, pool := ms.Value(), ft.Value();
    var offset: nat := 0;
    var k: nat := 0;
    assert data[..0] == [] && slices[..0] == [];
    NoBytes(s, pool, ptr);
    while k < |slices| && offset < |data|
      invariant k <= |slices| && offset <= |data| && Covers(s, slices[..k], ptr, offset)
      invariant ms.Value() == s && ft.Value() == CopyBytes(s, pool, ptr, data[..offset])
      decreases |slices| - k
    {
      var c := slices[k];
      var n := CoversPrefix(s, slices, ptr, |data|, k);
      CoversUnique(s, slices[..k], ptr, n, offset);
      SliceSize(s, c, ptr + offset);
      var size := Size(c);
      var len: nat := if size < |data| - offset then size else |data| - offset;
      FillSlice(ft, c.ppn, c.lo, data[offset..offset + len]);
      SliceIsBytes(s, pool, ptr, data, offset, c, len);
      CoversOneMore(s, slices[..k], ptr, offset, c);
      assert slices[..k + 1] == slices[..k] + [c];
      offset, k := offset + len, k + 1;
    }
    AllCovered(s, slices, ptr, |data|, k, offset);
    assert data[..|data|] == data;
    ok := offset == |data|;
  }

  lemma NoBytes(s: Space, pool: Pool, ptr: nat)
    ensures CopyBytes(s, pool, ptr, []) == pool
  {
  }

  lemma AllCovered(s: Space, slices: seq<Slice>, ptr: nat, len: nat, k: nat, offset: nat)
    requires Covers(s, slices, ptr, len) && k <= |slices| && Covers(s, slices[..k], ptr, offset) && offset <= len
    requires k == |slices| || offset >= len
    ensures offset == len
  {
    hide SliceAt;
    if k == |slices| {
      assert slices[..k] == slices;
      CoversUnique(s, slices, ptr, offset, len);
    }
  }

  /** The copy loop of `copy_from_user`. */
  method ReadSlices(ms: MemorySet, ft: FrameTable, slices: seq<Slice>, ptr: nat, len: nat) returns (dst: seq<Byte>)
    requires Covers(ms.Value(), slices, ptr, len)
    ensures dst == ReadBytes(ms.Value(), ft.Value(), ptr, len)
  {
    hide SliceAt, ReadBytes;
    ghost var s, pool := ms.Value(), ft.Value();
    dst := [];
    var k: nat := 0;
    assert slices[..0] == [];
    NothingRead(s, pool, ptr);
    while k < |slices| && |dst| < len
      invariant k <= |slices| && |dst| <= len && Covers(s, slices[..k], ptr, |dst|)
      invariant dst == ReadBytes(s, pool, ptr, |dst|)
      decreases |slices| - k
    {
      var c := slices[k];
      var n := CoversPrefix(s, slices, ptr, len, k);
      CoversUnique(s, slices[..k], ptr, n, |dst|);
      SliceSize(s, c, ptr + |dst|);
      var page := if c.ppn in ft.mem then ft.mem[c.ppn] else ZeroPage;
      ReadSlice(s, pool, ptr, |dst|, c);
      CoversOneMore(s, slices[..k], ptr, |dst|, c);
      assert slices[..k + 1] == slices[..k] + [c];
      dst, k := dst + page[c.lo..c.hi], k + 1;
    }
    AllCovered(s, slices, ptr, len, k, |dst|);
  }

  lemma NothingRead(s: Space, pool: Pool, ptr: nat)
    ensures ReadBytes(s, pool, ptr, 0) == []
  {
  }

  lemma ReadSlice(s: Space, pool: Pool, ptr: nat, n: nat, c: Slice)
    requires SliceAt(s, c, ptr + n)
    ensures ReadBytes(s, pool, ptr, n + Size(c)) == ReadBytes(s, pool, ptr, n) + Contents(pool, c.ppn)[c.lo..c.hi]
  {
    hide PageOf, OffOf, Contents;
  }

  // ---------- resolving faults ----------

  method MaterialisePage(ms: MemorySet, ft: FrameTable, va: nat) returns (ok: bool)
    requires ms.Consistent(ft)
    modifies ms, ft, ft.allocator
    ensures ms.Consistent(ft) && Outcome(ok, ms.Value(), ft.Value()) == Materialise(old(ms.Value()), old(ft.Value()), va)
  {
    hide SpaceOk, Backed, DemandFault;
    if PageOf(va) in ms.pageTable { return true; }
    ok := ms.HandleDemandFault(va / PAGE_SIZE, ft);
  }

  /** The loop body of `try_resolve_user_cow_writable`. */
  method MakePageWritable(ms: MemorySet, ft: FrameTable, va: nat) returns (ok: bool)
    requires ms.Consistent(ft)
    modifies ms, ft, ft.allocator
    ensures ms.Consistent(ft) && Outcome(ok, ms.Value(), ft.Value()) == ResolvePage(old(ms.Value()), old(ft.Value()), va)
  {
    hide SpaceOk, Backed, Materialise, CowFault, PageOf;
    var v := PageOf(va);
    ok := MaterialisePage(ms, ft, va);
    if !ok || v !in ms.pageTable || !ms.pageTable[v].u { return false; }
    if !ms.pageTable[v].w {
      ok := ms.HandleCowFault(va / PAGE_SIZE, ft);
      if !ok { return false; }
    }
    ok := v in ms.pageTable && ms.pageTable[v].u && ms.pageTable[v].w;
  }

  /** `try_resolve_user_cow_writable`. */
  method TryResolveWritable(ms: MemorySet, ft: FrameTable, ptr: nat, len: nat) returns (ok: bool)
    requires ms.Consistent(ft)
    modifies ms, ft, ft.allocator
    ensures ms.Consistent(ft)
    ensures Outcome(ok, ms.Value(), ft.Value()) == TryResolve(old(ms.Value()), old(ft.Value()), ptr, len, true)
  {
    hide SpaceOk, Backed, ResolvePage, NextVa;
    var end := ptr + len;
    if end >= USIZE { return false; }
    var va := ptr;
    while va < end
      invariant ms.Consistent(ft)
      invariant ResolveWritable(ms.Value(), ft.Value(), va, end) == ResolveWritable(old(ms.Value()), old(ft.Value()), ptr, end)
      decreases if va < end then end - va else 0
    {
      ok := MakePageWritable(ms, ft, va);
      if !ok { return false; }
      va := NextVa(va);
    }
    ok := true;
  }

  /** `try_resolve_user_readable`. */
  method TryResolveReadable(ms: MemorySet, ft: FrameTable, ptr: nat, len: nat) returns (ok: bool)
    requires ms.Consistent(ft)
    modifies ms, ft, ft.allocator
    ensures ms.Consistent(ft)
    ensures Outcome(ok, ms.Value(), ft.Value()) == TryResolve(old(ms.Value()), old(ft.Value()), ptr, len, false)
  {
    hide SpaceOk, Backed, Materialise, NextVa, PageOf;
    var end := ptr + len;
    if end >= USIZE { return false; }
    var va := ptr;
    while va < end
      invariant ms.Consistent(ft)
      invariant ResolveReadable(ms.Value(), ft.Value(), va, end) == ResolveReadable(old(ms.Value()), old(ft.Value()), ptr, end)
      decreases if va < end then end - va else 0
    {
      ok := MaterialisePage(ms, ft, va);
      if !ok || PageOf(va) !in ms.pageTable || !ms.pageTable[PageOf(va)].u { return false; }
      va := NextVa(va);
    }
    ok := true;
  }

  // ---------- the copies ----------

  /** `copy_to_user` without the fork-name fallback. */
  method CopyToUser(ms: MemorySet, ft: FrameTable, dst: nat, data: seq<Byte>) returns (ok: bool)
    requires ms.Consistent(ft)
    modifies ms, ft, ft.allocator
    ensures Outcome(ok, ms.Value(), ft.Value()) == CopiedTo(old(ms.Value()), old(ft.Value()), dst, data)
  {
    hide SpaceOk, Backed, TryResolve, CopyBytes, Covers, UserPage;
    if data == [] {
      NoBytes(ms.Value(), ft.Value(), dst);
      return true;
    }
    var slices := TranslatedByteBufferChecked(ms, dst, |data|, true);
    if slices.None? {
      ok := TryResolveWritable(ms, ft, dst, |data|);
      if !ok { return false; }
      slices := TranslatedByteBufferChecked(ms, dst, |data|, true);
      if slices.None? { return false; }
    }
    ok := CopySlices(ms, ft, slices.value, dst, data);
  }

  /** `walk_user_write_slices` with the copying callback: it stops at the first page that cannot be written. */
  method WalkAndCopy(ms: MemorySet, ft: FrameTable, ptr: nat, data: seq<Byte>) returns (ok: bool, total: nat)
    modifies ft`mem
    ensures ok <==> Accessible(ms.Value(), ptr, |data|, true)
    ensures total <= |data| && (ok ==> total == |data|)
    ensures ft.Value() == CopyBytes(ms.Value(), old(ft.Value()), ptr, data[..total])
  {
    hide PageOf, UserPage, SliceAt, CopyBytes, WriteSlice;
    ghost var s, pool := ms.Value(), ft.Value();
    total := 0;
    assert data[..0] == [];
    NoBytes(s, pool, ptr);
    if data == [] { return true, 0; }
    var start, end := ptr, ptr + |data|;
    if end >= USIZE { return false, 0; }
    while start < end
      invariant ptr <= start <= end && total == start - ptr && ms.Value() == s
      invariant start < end ==> start < USIZE
      invariant start == end ==> end <= USIZE - PAGE_SIZE
      invariant forall va | ptr <= va < start :: UserPage(s, va, true)
      invariant ft.Value() == CopyBytes(s, pool, ptr, data[..total])
    {
      var pageOk := CheckPage(ms, start, true);
      if !pageOk { return false, total; }
      UserPageMapped(s, start, true);
      var ppn := ms.pageTable[PageOf(start)].ppn;
      var nextPage := start + (PAGE_SIZE - OffOf(start));
      if nextPage >= USIZE { LastPage(start, end); return false, total; }
      var chunkEnd := if nextPage < end then nextPage else end;
      var c := Slice(ppn, OffOf(start), if chunkEnd == nextPage then PAGE_SIZE else OffOf(chunkEnd));
      SamePage(s, start, true);
      MakeSlice(s, start, chunkEnd, c);
      SliceSize(s, c, start);
      var len: nat := Size(c);
      FillSlice(ft, ppn, c.lo, data[total..total + len]);
      SliceIsBytes(s, pool, ptr, data, total, c, len);
      total := total + len;
      start := chunkEnd;
    }
    ok := true;
  }

  /** `copy_to_user_inline`: it refuses a null pointer, and otherwise has the effect of `copy_to_user`. */
  method CopyToUserInline(ms: MemorySet, ft: FrameTable, dst: nat, data: seq<Byte>) returns (ok: bool)
    requires ms.Consistent(ft)
    modifies ms, ft, ft.allocator
    ensures Outcome(ok, ms.Value(), ft.Value()) ==
            if dst == 0 && data != [] then Outcome(false, old(ms.Value()), old(ft.Value()))
            else CopiedTo(old(ms.Value()), old(ft.Value()), dst, data)
  {
    hide SpaceOk, Backed, TryResolve, CopyBytes, UserPage;
    if data == [] {
      NoBytes(ms.Value(), ft.Value(), dst);
      return true;
    }
    if dst == 0 { return false; }
    var mapped := UserWriteRangeMapped(ms, dst, |data|, true);
    if !mapped {
      ok := TryResolveWritable(ms, ft, dst, |data|);
      if !ok { return false; }
      mapped := UserWriteRangeMapped(ms, dst, |data|, true);
      if !mapped { return false; }
    }
    var total;
    ok, total := WalkAndCopy(ms, ft, dst, data);
    assert data[..|data|] == data;
    ok := total == |data|;
  }

  /** `copy_from_user`; `demand` is the policy that resolves missing pages. */
  method CopyFromUser(ms: MemorySet, ft: FrameTable, src: nat, len: nat, demand: bool) returns (r: Option<seq<Byte>>)
    requires ms.Consistent(ft)
    modifies ms, ft, ft.allocator
    ensures demand ==> Outcome(r.Some?, ms.Value(), ft.Value()) == Prepared(old(ms.Value()), old(ft.Value()), src, len, false)
    ensures !demand ==> ms.Value() == old(ms.Value()) && ft.Value() == old(ft.Value())
                        && (r.Some? <==> Accessible(ms.Value(), src, len, false))
    ensures r.Some? ==> r.value == ReadBytes(ms.Value(), ft.Value(), src, len)
  {
    hide SpaceOk, Backed, TryResolve, UserPage, ReadBytes, Covers;
    if len == 0 {
      NothingRead(ms.Value(), ft.Value(), src);
      return Some([]);
    }
    var slices := TranslatedByteBufferChecked(ms, src, len, false);
    if slices.None? {
      if !demand { return None; }
      var ok := TryResolveReadable(ms, ft, src, len);
      if !ok { return None; }
      slices := TranslatedByteBufferChecked(ms, src, len, false);
      if slices.None? { return None; }
    }
    var dst := ReadSlices(ms, ft, slices.value, src, len);
    r := Some(dst);
  }
}
