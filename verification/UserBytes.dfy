/** What a copy to user memory does to every byte of every process, shared pages and aliases included. */
module UserBytes {
  import opened Collections
  import opened Blocks
  import opened Frames
  import opened AddressSpaces
  import opened Cow
  import opened UserMem

  /** Address `va` lies at offset `o` of frame `p`. */
  predicate Places(s: Space, va: nat, p: Ppn, o: nat) {
    PageOf(va) in s.pt && s.pt[PageOf(va)].ppn == p && OffOf(va) == o
  }

  /** The last of the addresses `ptr..ptr + n` that lies at offset `o` of frame `p`, counted from `ptr`. */
  function LastIndex(s: Space, ptr: nat, n: nat, p: Ppn, o: nat): (r: Option<nat>)
    ensures r.None? ==> forall va | ptr <= va < ptr + n :: !Places(s, va, p, o)
    ensures r.Some? ==> r.value < n && Places(s, ptr + r.value, p, o)
                        && forall va | ptr + r.value < va < ptr + n :: !Places(s, va, p, o)
  {
    if n == 0 then None
    else if Places(s, ptr + (n - 1), p, o) then Some(n - 1)
    else LastIndex(s, ptr, n - 1, p, o)
  }

  /** The byte a copy leaves at offset `o` of frame `p`, which held `b`. */
  function Left(s: Space, ptr: nat, data: seq<Byte>, p: Ppn, o: nat, b: Byte): (r: Byte) {
    var i := LastIndex(s, ptr, |data|, p, o);
    if i.Some? then data[i.value] else b
  }

  lemma {:induction false} CopyBytesAt(s: Space, pool: Pool, ptr: nat, data: seq<Byte>, p: Ppn, o: nat)
    requires o < PAGE_SIZE
    ensures Contents(CopyBytes(s, pool, ptr, data), p)[o] == Left(s, ptr, data, p, o, Contents(pool, p)[o])
    decreases |data|
  {
    hide PageOf, OffOf;
    if data != [] {
      var n := |data| - 1;
      CopyBytesAt(s, pool, ptr, data[..n], p, o);
    }
  }

  /** The byte process `l` finds at `va` once the copy is done. */
  ghost function Found(w: World, l: nat, va: nat, s: Space, ptr: nat, data: seq<Byte>, x: World): (b: Byte)
    requires l < |w.procs| && l < |x.procs|
  {
    var old_ := ByteAt(w.procs[l], w.pool, va);
    if PageOf(va) in x.procs[l].pt then Left(s, ptr, data, x.procs[l].pt[PageOf(va)].ppn, OffOf(va), old_) else old_
  }

  /** All or nothing, for every address of every process: after a copy that fails, each holds the byte it held; after
      one that succeeds, each holds the last byte of `data` stored to its frame and offset, or else the byte it held. */
  lemma CopyAtEveryAddress(w: World, k: nat, ptr: nat, data: seq<Byte>, l: nat, va: nat)
    requires WorldOk(w) && k < |w.procs| && l < |w.procs|
    ensures var r := CopiedTo(w.procs[k], w.pool, ptr, data);
            var x := Replace(w, k, r.space, r.pool);
            && (PageOf(va) in w.procs[l].pt ==> PageOf(va) in x.procs[l].pt)
            && ByteAt(x.procs[l], x.pool, va) ==
               if r.ok then Found(w, l, va, r.space, ptr, data, x) else ByteAt(w.procs[l], w.pool, va)
  {
    hide WorldOk, Abs, Prepared, Accessible, CopyBytes, SameKinds, PageOf, Contents, Left;
    PreparedOk(w, k, ptr, |data|, true);
    var d := Prepared(w.procs[k], w.pool, ptr, |data|, true);
    var y := Replace(w, k, d.space, d.pool);
    var v := PageOf(va);
    assert PageBytes(y.procs[l], y.pool, v) == PageBytes(w.procs[l], w.pool, v);
    if v in y.procs[l].pt { CopyBytesAt(d.space, d.pool, ptr, data, y.procs[l].pt[v].ppn, OffOf(va)); }
  }

  /** Two addresses of the range at the same place of the same frame are given the same byte. */
  ghost predicate Consistent(s: Space, ptr: nat, data: seq<Byte>) {
    forall a, b | ptr <= a < ptr + |data| && ptr <= b < ptr + |data| && SamePlace(s, a, b) :: data[a - ptr] == data[b - ptr]
  }

  predicate SamePlace(s: Space, a: nat, b: nat) {
    PageOf(a) in s.pt && Places(s, b, s.pt[PageOf(a)].ppn, OffOf(a))
  }

  lemma ReadsLast(s: Space, pool: Pool, ptr: nat, data: seq<Byte>, a: nat) returns (b: nat)
    requires ptr <= a < ptr + |data| && PageOf(a) in s.pt
    ensures ptr <= b < ptr + |data| && SamePlace(s, a, b)
    ensures ByteAt(s, CopyBytes(s, pool, ptr, data), a) == data[b - ptr]
  {
    hide PageOf, OffOf, CopyBytes, Contents;
    var p := s.pt[PageOf(a)].ppn;
    assert Places(s, a, p, OffOf(a));
    CopyBytesAt(s, pool, ptr, data, p, OffOf(a));
    b := ptr + LastIndex(s, ptr, |data|, p, OffOf(a)).value;
  }

  lemma ReadsBack(s: Space, pool: Pool, ptr: nat, data: seq<Byte>)
    requires forall va | ptr <= va < ptr + |data| :: PageOf(va) in s.pt
    ensures ReadBytes(s, CopyBytes(s, pool, ptr, data), ptr, |data|) == data <==> Consistent(s, ptr, data)
  {
    hide PageOf, OffOf, CopyBytes, Contents;
    var read := ReadBytes(s, CopyBytes(s, pool, ptr, data), ptr, |data|);
    if Consistent(s, ptr, data) {
      forall i | 0 <= i < |data| ensures read[i] == data[i] { var b := ReadsLast(s, pool, ptr, data, ptr + i); }
    }
    if read == data {
      forall a, b | ptr <= a < ptr + |data| && ptr <= b < ptr + |data| && SamePlace(s, a, b)
        ensures data[a - ptr] == data[b - ptr]
      {
        assert read[a - ptr] == ByteAt(s, CopyBytes(s, pool, ptr, data), a);
        assert read[b - ptr] == ByteAt(s, CopyBytes(s, pool, ptr, data), b);
      }
    }
  }

  /** After a copy that succeeds, the range reads back as `data` exactly when no two of its addresses share a place
      and are given different bytes. */
  lemma ReadsBackExactly(w: World, k: nat, ptr: nat, data: seq<Byte>)
    requires WorldOk(w) && k < |w.procs|
    ensures var r := CopiedTo(w.procs[k], w.pool, ptr, data);
            r.ok ==> (ReadBytes(r.space, r.pool, ptr, |data|) == data <==> Consistent(r.space, ptr, data))
  {
    hide PageOf, WorldOk, Prepared, CopyBytes, ReadBytes, Consistent;
    var r := CopiedTo(w.procs[k], w.pool, ptr, data);
    PreparedAccess(w.procs[k], w.pool, ptr, |data|, true);
    if r.ok {
      forall va | ptr <= va < ptr + |data| ensures PageOf(va) in r.space.pt { assert UserPage(r.space, va, true); }
      ReadsBack(r.space, Prepared(w.procs[k], w.pool, ptr, |data|, true).pool, ptr, data);
    }
  }
}
