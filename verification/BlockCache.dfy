/** The write-back block cache of easy-fs: a queue of at most 16 cached blocks over a
    device, with reference-counted handles and first-unheld eviction. */
module BlockCaches {
  import opened Collections

  const BLOCK_CACHE_SIZE: nat := 16
  /** The most handles one file-system operation holds at a time: the block of the inode, the double-indirect block
      and the block under it. */
  const NESTED_HANDLES: nat := 3

  /** A live `Arc<Mutex<BlockCache>>`: the cached copy, its dirty flag and its strong count
      (one reference is the queue's own). */
  datatype BlockCache<D> = BlockCache(cache: D, modified: bool, strong: nat)

  type Device<D> = map<nat, D>
  type Copies<D> = map<nat, BlockCache<D>>

  /** The queue lists exactly the blocks that have a live copy, each once, at most 16 of them. */
  ghost predicate QueueOk<D>(copies: Copies<D>, queue: seq<nat>) {
    && |queue| <= BLOCK_CACHE_SIZE
    && Distinct(queue)
    && forall id :: id in queue <==> id in copies
  }

  /** `logical` is what every reader sees: the live copy of a block if there is one, else the device. */
  ghost predicate Coherent<D>(device: Device<D>, copies: Copies<D>, logical: Device<D>) {
    && logical.Keys == device.Keys
    && (forall id | id in copies :: id in device && copies[id].strong >= 1)
    && (forall id | id in device :: logical[id] == if id in copies then copies[id].cache else device[id])
    && (forall id | id in copies && !copies[id].modified :: device[id] == copies[id].cache)
  }

  /** Blocks whose copy somebody outside the queue holds. */
  ghost function Pinned<D>(copies: Copies<D>): (s: set<nat>) {
    set id | id in copies && copies[id].strong > 1
  }

  /** The state in which a request for `id` panics with "Run out of BlockCache!". */
  ghost predicate Exhausted<D>(copies: Copies<D>, queue: seq<nat>, id: nat) {
    && id !in copies
    && |queue| == BLOCK_CACHE_SIZE
    && forall i | 0 <= i < |queue| :: queue[i] in copies && copies[queue[i]].strong != 1
  }

  /** The first entry, from `i` on, that nobody outside the queue holds. */
  function FirstUnheld<D>(copies: Copies<D>, queue: seq<nat>, i: nat): (r: nat)
    requires i <= |queue|
    ensures i <= r <= |queue| && (r < |queue| ==> queue[r] in copies && copies[queue[r]].strong == 1)
    ensures forall j | i <= j < r :: !(queue[j] in copies && copies[queue[j]].strong == 1)
    decreases |queue| - i
  {
    if i == |queue| || (queue[i] in copies && copies[queue[i]].strong == 1) then i else FirstUnheld(copies, queue, i + 1)
  }

  lemma FirstIs<D>(copies: Copies<D>, queue: seq<nat>, i: nat, r: nat)
    requires i <= r < |queue| && queue[r] in copies && copies[queue[r]].strong == 1
    requires forall j | i <= j < r :: !(queue[j] in copies && copies[queue[j]].strong == 1)
    ensures FirstUnheld(copies, queue, i) == r
  {
  }

  /** With fewer than 16 held blocks the panic is unreachable, and with exactly those 16 held it is reached. */
  lemma PanicsExactlyWhenAllHeld<D>(copies: Copies<D>, queue: seq<nat>, id: nat)
    requires QueueOk(copies, queue) && id !in copies
    requires forall k | k in copies :: copies[k].strong >= 1
    ensures Exhausted(copies, queue, id) <==> |Pinned(copies)| == BLOCK_CACHE_SIZE
  {
    var all := Elems(queue);
    DistinctSize(queue);
    assert Pinned(copies) <= all;
    SubsetSize(Pinned(copies), all);
    if Exhausted(copies, queue, id) {
      forall k | k in all ensures k in Pinned(copies) {
        var i :| 0 <= i < |queue| && queue[i] == k;
      }
      assert all == Pinned(copies);
    } else if |Pinned(copies)| == BLOCK_CACHE_SIZE {
      var i :| 0 <= i < |queue| && copies[queue[i]].strong == 1;
      SubsetSize(Pinned(copies), all - {queue[i]});
      assert false;
    }
  }

  /** With a block free to evict, no request panics. */
  lemma CanGet<D>(device: Device<D>, copies: Copies<D>, queue: seq<nat>, logical: Device<D>, id: nat)
    requires QueueOk(copies, queue) && Coherent(device, copies, logical) && id in logical
    requires |Pinned(copies)| < BLOCK_CACHE_SIZE
    ensures id in device && !Exhausted(copies, queue, id)
    ensures id in copies ==> copies[id].strong >= 1
  {
    if id !in copies { PanicsExactlyWhenAllHeld(copies, queue, id); }
  }

  lemma DrainKeepsQueue<D>(copies: Copies<D>, queue: seq<nat>, pos: nat)
    requires QueueOk(copies, queue) && pos < |queue|
    ensures QueueOk(copies - {queue[pos]}, queue[..pos] + queue[pos + 1..])
  {
    var q := queue[..pos] + queue[pos + 1..];
    forall id ensures id in q <==> id in queue && id != queue[pos] {
      if id in queue && id != queue[pos] {
        var i :| 0 <= i < |queue| && queue[i] == id;
        assert q[if i < pos then i else i - 1] == id;
      }
    }
  }

  /** A clean copy can go: readers see the device instead. */
  lemma DropClean<D>(device: Device<D>, copies: Copies<D>, logical: Device<D>, id: nat)
    requires Coherent(device, copies, logical) && id in copies && !copies[id].modified
    ensures Coherent(device, copies - {id}, logical)
  {
  }

  lemma Cached<D>(device: Device<D>, copies: Copies<D>, queue: seq<nat>, logical: Device<D>, pos: nat)
    requires QueueOk(copies, queue) && Coherent(device, copies, logical) && pos < |queue|
    ensures queue[pos] in copies && copies[queue[pos]].strong >= 1
  {
  }

  /** The same copies, apart from their dirty flags. */
  ghost predicate SameBut<D>(a: Copies<D>, b: Copies<D>) {
    a.Keys == b.Keys && forall id | id in b :: b[id] == a[id].(modified := b[id].modified)
  }

  lemma SamePinned<D>(a: Copies<D>, b: Copies<D>)
    requires SameBut(a, b)
    ensures Pinned(a) == Pinned(b)
  {
    assert forall id | id in b :: b[id].strong == a[id].strong;
  }

  lemma AllClean<D>(device: Device<D>, copies: Copies<D>, queue: seq<nat>, logical: Device<D>)
    requires QueueOk(copies, queue) && Coherent(device, copies, logical)
    requires forall j | 0 <= j < |queue| :: !copies[queue[j]].modified
    ensures device == logical
  {
    forall id | id in copies ensures !copies[id].modified {
      var j :| 0 <= j < |queue| && queue[j] == id;
    }
  }

  class BlockCacheManager<D> {
    var device: Device<D>
    var copies: Copies<D>
    var queue: seq<nat>
    /** Copies that left the queue while still held: a second live copy of their block could appear. */
    var detached: seq<BlockCache<D>>
    ghost var logical: Device<D>

    ghost predicate Valid()
      reads this
    {
      && QueueOk(copies, queue)
      && Coherent(device, copies, logical)
      && detached == []
    }

    /** Valid, with room for the handles of one operation. */
    ghost predicate Usable()
      reads this
    {
      Valid() && |Pinned(copies)| + NESTED_HANDLES <= BLOCK_CACHE_SIZE
    }

    constructor (device: Device<D>)
      ensures Valid() && copies == map[]
      ensures this.device == device && logical == device
    {
      this.device := device;
      copies := map[];
      queue := [];
      detached := [];
      logical := device;
    }

    /** `BlockCache::sync`. */
    method Sync(id: nat)
      requires Valid() && id in copies
      modifies this`device, this`copies
      ensures Valid() && device.Keys == old(device.Keys)
      ensures copies == old(copies)[id := old(copies[id]).(modified := false)]
      ensures device == if old(copies[id]).modified then old(device)[id := copies[id].cache] else old(device)
    {
      var c := copies[id];
      if c.modified {
        copies := copies[id := c.(modified := false)];
        device := device[id := c.cache];
      } else {
        assert copies[id := c] == copies;
      }
    }

    /** The eviction scan: the first entry, front to tail, that nobody else holds. */
    method FindUnheld() returns (pos: nat)
      requires Valid()
      ensures pos <= |queue|
      ensures pos < |queue| ==> copies[queue[pos]].strong == 1
      ensures forall i | 0 <= i < pos :: copies[queue[i]].strong != 1
    {
      pos := 0;
      while pos < |queue|
        invariant pos <= |queue|
        invariant forall i | 0 <= i < pos :: copies[queue[i]].strong != 1
      {
        if copies[queue[pos]].strong == 1 { return; }
        pos := pos + 1;
      }
    }

    /** `queue.drain(idx..=idx)`: drops the queue's reference. The last reference writes the copy back and
        frees it; any other would leave the copy detached. */
    method Evict(pos: nat)
      requires Valid() && pos < |queue|
      modifies this`device, this`copies, this`queue, this`detached
      ensures old(copies[queue[pos]]).strong == 1 ==> Valid()
      ensures old(copies[queue[pos]]).strong > 1 ==>
                detached == [old(copies[queue[pos]]).(strong := old(copies[queue[pos]]).strong - 1)]
      ensures device.Keys == old(device.Keys)
      ensures queue == old(queue[..pos] + queue[pos + 1..])
      ensures copies == old(copies - {queue[pos]})
    {
      hide QueueOk, Coherent;
      var id := queue[pos];
      Cached(device, copies, queue, logical, pos);
      var c := copies[id].(strong := copies[id].strong - 1);
      if c.strong == 0 {
        Sync(id);
        DrainKeepsQueue(copies, queue, pos);
        DropClean(device, copies, logical, id);
      } else {
        detached := detached + [c];
      }
      copies := copies - {id};
      queue := queue[..pos] + queue[pos + 1..];
    }

    /** `get_block_cache`: one more reference to the one live copy of block `id`, loading it and evicting
        another block if need be. Nothing any block reads as changes, and no held copy moves. */
    method GetBlockCache(id: nat)
      requires Valid() && id in device && !Exhausted(copies, queue, id)
      modifies this`device, this`copies, this`queue, this`detached
      ensures Valid() && device.Keys == old(device.Keys)
      ensures id in copies && copies[id].cache == logical[id]
      ensures copies[id].strong == if id in old(copies) then old(copies[id]).strong + 1 else 2
      ensures forall k | k in old(Pinned(copies)) && k != id :: k in copies && copies[k] == old(copies[k])
      ensures Pinned(copies) == old(Pinned(copies)) + {id}
      ensures queue == if id in old(queue) then old(queue)
                       else if |old(queue)| < 16 then old(queue) + [id]
                       else var v := FirstUnheld(old(copies), old(queue), 0); old(queue[..v] + queue[v + 1..]) + [id]
    {
      if id in queue {
        copies := copies[id := copies[id].(strong := copies[id].strong + 1)];
      } else {
        if |queue| == BLOCK_CACHE_SIZE { EvictOne(id); }
        Admit(id);
      }
    }

    /** Frees a place in a full queue; no held copy moves. */
    method EvictOne(ghost id: nat)
      requires Valid() && |queue| == BLOCK_CACHE_SIZE && id !in copies && !Exhausted(copies, queue, id)
      modifies this`device, this`copies, this`queue, this`detached
      ensures Valid() && device.Keys == old(device.Keys) && |queue| < BLOCK_CACHE_SIZE && id !in copies
      ensures forall k | k in old(Pinned(copies)) :: k in copies && copies[k] == old(copies[k])
      ensures Pinned(copies) == old(Pinned(copies))
      ensures var v := FirstUnheld(old(copies), old(queue), 0); v < |old(queue)| && queue == old(queue[..v] + queue[v + 1..])
    {
      hide Coherent;
      var victim := FindUnheld();
      FirstIs(copies, queue, 0, victim);
      Evict(victim);
    }

    /** Loads a block that has no copy. */
    method Admit(id: nat)
      requires Valid() && id in device && id !in copies && |queue| < BLOCK_CACHE_SIZE
      modifies this`copies, this`queue
      ensures Valid() && copies == old(copies)[id := BlockCache(device[id], false, 2)] && device[id] == logical[id]
      ensures Pinned(copies) == old(Pinned(copies)) + {id} && queue == old(queue) + [id]
    {
      assert id !in queue;
      queue := queue + [id];
      copies := copies[id := BlockCache(device[id], false, 2)];
    }

    /** Three handles held at once never run into the panic. */
    method HoldThree(a: nat, b: nat, c: nat)
      requires Usable() && a in logical && b in logical && c in logical
      modifies this`device, this`copies, this`queue, this`detached
      ensures Valid() && Pinned(copies) == old(Pinned(copies)) + {a, b, c}
      ensures a in copies && b in copies && c in copies
      ensures copies[a].cache == logical[a] && copies[b].cache == logical[b] && copies[c].cache == logical[c]
    {
      hide QueueOk, Coherent, Exhausted, Pinned;
      ghost var p := Pinned(copies);
      CanGet(device, copies, queue, logical, a);
      GetBlockCache(a);
      CanGet(device, copies, queue, logical, b);
      GetBlockCache(b);
      CanGet(device, copies, queue, logical, c);
      GetBlockCache(c);
      HeldReads(device, copies, logical, a);
      HeldReads(device, copies, logical, b);
      HeldReads(device, copies, logical, c);
      assert p + {a} + {b} + {c} == p + {a, b, c};
    }

    static lemma HeldReads(device: Device<D>, copies: Copies<D>, logical: Device<D>, id: nat)
      requires Coherent(device, copies, logical) && id in Pinned(copies)
      ensures id in copies && id in logical && copies[id].cache == logical[id]
    {
    }

    /** Dropping a handle obtained from `GetBlockCache`. */
    method Release(id: nat)
      requires Valid() && id in Pinned(copies)
      modifies this`copies
      ensures Valid()
      ensures copies == old(copies)[id := old(copies[id]).(strong := old(copies[id]).strong - 1)]
      ensures Pinned(copies) == if old(copies[id]).strong == 2 then old(Pinned(copies)) - {id} else old(Pinned(copies))
    {
      copies := copies[id := copies[id].(strong := copies[id].strong - 1)];
    }

    /** `BlockCache::modify` through a held handle. */
    method Modify(id: nat, data: D)
      requires Valid() && id in Pinned(copies)
      modifies this`copies, this`logical
      ensures Valid()
      ensures copies == old(copies)[id := old(copies[id]).(cache := data, modified := true)]
      ensures logical == old(logical)[id := data]
      ensures Pinned(copies) == old(Pinned(copies))
    {
      copies := copies[id := copies[id].(cache := data, modified := true)];
      logical := logical[id := data];
    }

    /** `block_cache_sync_all`: afterwards the device is the logical disk. */
    method SyncAll()
      requires Valid()
      modifies this`device, this`copies
      ensures Valid() && device == logical
      ensures Pinned(copies) == old(Pinned(copies))
    {
      hide Pinned, Coherent;
      var i := 0;
      while i < |queue|
        invariant i <= |queue| && Valid()
        invariant SameBut(old(copies), copies)
        invariant forall j | 0 <= j < i :: !copies[queue[j]].modified
      {
        Sync(queue[i]);
        i := i + 1;
      }
      SamePinned(old(copies), copies);
      assert device == logical by { AllClean(device, copies, queue, logical); }
    }

    /** Get, read, drop. */
    method Load(id: nat) returns (b: D)
      requires Usable() && id in logical
      modifies this`device, this`copies, this`queue, this`detached
      ensures Usable() && Pinned(copies) == old(Pinned(copies))
      ensures b == logical[id]
    {
      hide QueueOk, Coherent, Exhausted;
      CanGet(device, copies, queue, logical, id);
      GetBlockCache(id);
      b := copies[id].cache;
      Release(id);
    }

    /** Get, modify, drop. */
    method Store(id: nat, data: D)
      requires Usable() && id in logical
      modifies this
      ensures Usable() && Pinned(copies) == old(Pinned(copies))
      ensures logical == old(logical)[id := data]
    {
      hide QueueOk, Coherent, Exhausted;
      CanGet(device, copies, queue, logical, id);
      GetBlockCache(id);
      Modify(id, data);
      Release(id);
    }
  }
}
