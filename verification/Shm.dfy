/** The lifetime of SysV shared-memory segments. */
module SharedMemory {
  import opened Collections
  import opened Frames

  const IPC_PRIVATE: int := 0
  const SHMMIN: nat := 1
  const SHMMAX: nat := 32 * 1024 * 1024
  const SHMMNI: nat := 128
  const SHMSEG: nat := 128

  datatype Segment = Segment(key: int, id: int, size: nat, permissions: nat, attachCount: nat, marked: bool)
  /** A process and the address it attached at. */
  type Place = (nat, nat)
  type Attachments = map<Place, (int, nat)>
  datatype Table = Table(segments: map<int, Segment>, attachments: Attachments, next: nat)

  datatype ShmError = EINVAL | ENOMEM | EEXIST | ENOENT | EMFILE
  datatype Result<+T> = Ok(value: T) | Err(error: ShmError)

  // ---------- counting attachments ----------

  ghost function PlacesOf(a: Attachments, id: int): (ps: set<Place>) {
    set k | k in a && a[k].0 == id
  }

  ghost function Attached(a: Attachments, id: int): (n: nat) {
    |PlacesOf(a, id)|
  }

  function PlacesOfPid(a: Attachments, pid: nat): (ps: set<Place>) {
    set k | k in a && k.0 == pid
  }

  lemma AttachedPut(a: Attachments, k: Place, id: int, size: nat, i: int)
    requires k !in a
    ensures Attached(a[k := (id, size)], i) == Attached(a, i) + if i == id then 1 else 0
  {
    assert PlacesOf(a[k := (id, size)], i) == PlacesOf(a, i) + if i == id then {k} else {};
  }

  lemma AttachedRemove(a: Attachments, k: Place, i: int)
    requires k in a
    ensures Attached(a - {k}, i) == Attached(a, i) - if i == a[k].0 then 1 else 0
  {
    assert PlacesOf(a, i) == PlacesOf(a - {k}, i) + if i == a[k].0 then {k} else {};
  }

  // ---------- invariant ----------

  ghost predicate SegmentOk(t: Table, id: int)
    requires id in t.segments
  {
    var s := t.segments[id];
    && s.id == id && 0 < id < t.next
    && s.attachCount == Attached(t.attachments, id)
    && (s.marked ==> s.attachCount > 0)
  }

  /** Counts are exact, a marked segment is still attached, attachments name live segments, unmarked keys are
      unique, and the limits hold. */
  ghost predicate TableOk(t: Table) {
    && 0 < t.next && (forall id | id in t.segments :: SegmentOk(t, id))
    && (forall k | k in t.attachments :: t.attachments[k].0 in t.segments)
    && (forall i, j | i in t.segments && j in t.segments && Named(t.segments[i]) && t.segments[i].key == t.segments[j].key
                      && !t.segments[j].marked :: i == j)
    && |t.segments| <= SHMMNI
    && forall pid :: |PlacesOfPid(t.attachments, pid)| <= SHMSEG
  }

  /** Found by its key: not private, not marked. */
  predicate Named(s: Segment) {
    s.key != IPC_PRIVATE && !s.marked
  }

  /** Segment `id` is the one `shmget` finds under `key`. */
  predicate NamedBy(segments: map<int, Segment>, id: int, key: int) {
    id in segments && Named(segments[id]) && segments[id].key == key
  }

  /** Unmarked segments outside `spare` are still there, unmarked, with the same key and size. */
  ghost predicate Survive(t: Table, u: Table, spare: set<int>) {
    forall id | id in t.segments && !t.segments[id].marked && id !in spare ::
      id in u.segments && !u.segments[id].marked && u.segments[id].key == t.segments[id].key && u.segments[id].size == t.segments[id].size
  }

  lemma SurviveTrans(t: Table, u: Table, v: Table, spare: set<int>, more: set<int>)
    requires Survive(t, u, spare) && Survive(u, v, more)
    ensures Survive(t, v, spare + more)
  {
  }

  // ---------- detaching ----------

  function RemoveSegment(t: Table, id: int): (r: Table) {
    if id !in t.segments then t
    else t.(segments := t.segments - {id}, attachments := map k | k in t.attachments && t.attachments[k].0 != id :: t.attachments[k])
  }

  /** Dropping the attachment at `k`; a marked segment goes with its last one. */
  function Detach(t: Table, k: Place): (r: Table)
    requires k in t.attachments
  {
    var id := t.attachments[k].0;
    var u := t.(attachments := t.attachments - {k});
    if id !in t.segments then u
    else
      var s := t.segments[id];
      var c := s.(attachCount := if s.attachCount > 0 then s.attachCount - 1 else 0);
      var v := u.(segments := u.segments[id := c]);
      if c.marked && c.attachCount == 0 then RemoveSegment(v, id) else v
  }

  lemma PidRemove(a: Attachments, k: Place, pid: nat)
    requires k in a
    ensures PlacesOfPid(a - {k}, pid) <= PlacesOfPid(a, pid) && |PlacesOfPid(a - {k}, pid)| <= |PlacesOfPid(a, pid)|
  {
    assert PlacesOfPid(a, pid) == PlacesOfPid(a - {k}, pid) + (PlacesOfPid(a, pid) - PlacesOfPid(a - {k}, pid));
  }

  /** Under the invariant nothing else refers to a segment that loses its last attachment. */
  lemma DetachForm(t: Table, k: Place)
    requires TableOk(t) && k in t.attachments
    ensures var id := t.attachments[k].0; id in t.segments && t.segments[id].attachCount > 0
    ensures var id := t.attachments[k].0; var s := t.segments[id];
            Detach(t, k) == if s.marked && s.attachCount == 1 then t.(segments := t.segments - {id}, attachments := t.attachments - {k})
                            else t.(segments := t.segments[id := s.(attachCount := s.attachCount - 1)], attachments := t.attachments - {k})
  {
    var id := t.attachments[k].0;
    var s := t.segments[id];
    assert SegmentOk(t, id);
    assert k in PlacesOf(t.attachments, id);
    AttachedRemove(t.attachments, k, id);
    if s.marked && s.attachCount == 1 {
      var a := t.attachments - {k};
      assert PlacesOf(a, id) == {};
      forall x | x in a ensures a[x].0 != id { assert a[x].0 == id ==> x in PlacesOf(a, id); }
      assert (map x | x in a && a[x].0 != id :: a[x]) == a;
      assert t.segments[id := s.(attachCount := 0)] - {id} == t.segments - {id};
    }
  }

  lemma DetachOk(t: Table, k: Place)
    requires TableOk(t) && k in t.attachments
    ensures TableOk(Detach(t, k)) && Survive(t, Detach(t, k), {})
    ensures Detach(t, k).attachments == t.attachments - {k} && Detach(t, k).next == t.next
    ensures forall id | id in t.segments ::
              id in Detach(t, k).segments <==> !(t.segments[id].marked && Attached(t.attachments - {k}, id) == 0)
  {
    hide Attached, Detach, PlacesOfPid;
    DetachForm(t, k);
    var u := Detach(t, k);
    forall id | id in t.segments
      ensures id in u.segments <==> !(t.segments[id].marked && Attached(t.attachments - {k}, id) == 0)
      ensures id in u.segments ==> SegmentOk(u, id)
    {
      assert SegmentOk(t, id);
      AttachedRemove(t.attachments, k, id);
    }
    DetachRefs(t, k);
    forall pid ensures |PlacesOfPid(u.attachments, pid)| <= SHMSEG { PidRemove(t.attachments, k, pid); }
    SegmentsShrink(t, u);
  }

  /** No attachment is left without its segment. */
  lemma DetachRefs(t: Table, k: Place)
    requires TableOk(t) && k in t.attachments
    ensures forall x | x in Detach(t, k).attachments :: Detach(t, k).attachments[x].0 in Detach(t, k).segments
  {
    hide Detach, PlacesOfPid;
    DetachForm(t, k);
    var id, u := t.attachments[k].0, Detach(t, k);
    assert SegmentOk(t, id);
    AttachedRemove(t.attachments, k, id);
    forall x | x in u.attachments ensures u.attachments[x].0 in u.segments {
      if u.attachments[x].0 == id { assert x in PlacesOf(t.attachments - {k}, id); }
    }
  }

  lemma SegmentsShrink(t: Table, u: Table)
    requires u.segments.Keys <= t.segments.Keys
    ensures |u.segments| <= |t.segments|
  {
    assert t.segments.Keys == u.segments.Keys + (t.segments.Keys - u.segments.Keys);
    assert |t.segments.Keys| == |t.segments| && |u.segments.Keys| == |u.segments|;
  }

  // ---------- the other changes ----------

  function AlignUp(value: nat): (r: nat)
    ensures r % PAGE_SIZE == 0 && value <= r < value + PAGE_SIZE
  {
    (value + PAGE_SIZE - 1) / PAGE_SIZE * PAGE_SIZE
  }

  lemma CreateOk(t: Table, s: Segment)
    requires TableOk(t) && |t.segments| < SHMMNI && s.id == t.next && s.attachCount == 0 && !s.marked
    requires s.key == IPC_PRIVATE || forall i | i in t.segments && Named(t.segments[i]) :: t.segments[i].key != s.key
    ensures var u := t.(segments := t.segments[t.next := s], next := t.next + 1); TableOk(u) && Survive(t, u, {})
  {
    hide Attached, PlacesOfPid;
    var u := t.(segments := t.segments[t.next := s], next := t.next + 1);
    NextUnused(t);
    NoneAttached(t, t.next);
    forall id | id in u.segments ensures SegmentOk(u, id) { assert id != t.next ==> SegmentOk(t, id); }
    OneMoreKey(t.segments, t.next, s);
  }

  lemma NextUnused(t: Table)
    requires TableOk(t)
    ensures t.next !in t.segments
  {
    forall id | id in t.segments ensures id != t.next { assert SegmentOk(t, id); }
  }

  lemma OneMoreKey(m: map<int, Segment>, id: int, s: Segment)
    requires id !in m
    ensures |m[id := s]| == |m| + 1
  {
    assert m[id := s].Keys == m.Keys + {id};
    KeysSize(m);
    KeysSize(m[id := s]);
  }

  lemma KeysSize(m: map<int, Segment>)
    ensures |m.Keys| == |m|
  {
  }

  lemma NoneAttached(t: Table, id: int)
    requires TableOk(t) && id !in t.segments
    ensures Attached(t.attachments, id) == 0
  {
    forall k | k in t.attachments ensures t.attachments[k].0 != id { assert t.attachments[k].0 in t.segments; }
    assert PlacesOf(t.attachments, id) == {};
  }

  lemma AttachOk(t: Table, k: Place, id: int, size: nat)
    requires TableOk(t) && k !in t.attachments && id in t.segments && |PlacesOfPid(t.attachments, k.0)| < SHMSEG
    ensures var u := t.(attachments := t.attachments[k := (id, size)],
                        segments := t.segments[id := t.segments[id].(attachCount := t.segments[id].attachCount + 1)]);
            TableOk(u) && Survive(t, u, {})
  {
    hide Attached, PlacesOfPid;
    var u := t.(attachments := t.attachments[k := (id, size)],
                segments := t.segments[id := t.segments[id].(attachCount := t.segments[id].attachCount + 1)]);
    forall i | i in u.segments ensures SegmentOk(u, i) {
      assert SegmentOk(t, i);
      AttachedPut(t.attachments, k, id, size, i);
    }
    forall pid ensures |PlacesOfPid(u.attachments, pid)| <= SHMSEG {
      PidPut(t.attachments, k, (id, size), pid);
    }
    SegmentsShrink(t, u);
  }

  lemma PidPut(a: Attachments, k: Place, e: (int, nat), pid: nat)
    requires k !in a
    ensures |PlacesOfPid(a[k := e], pid)| == |PlacesOfPid(a, pid)| + if pid == k.0 then 1 else 0
  {
    assert PlacesOfPid(a[k := e], pid) == PlacesOfPid(a, pid) + if pid == k.0 then {k} else {};
  }

  /** IPC_RMID: a segment nobody has attached goes at once. */
  function Mark(t: Table, id: int): (r: Table)
    requires id in t.segments
  {
    var u := t.(segments := t.segments[id := t.segments[id].(marked := true)]);
    if t.segments[id].attachCount == 0 then RemoveSegment(u, id) else u
  }

  lemma MarkOk(t: Table, id: int)
    requires TableOk(t) && id in t.segments
    ensures TableOk(Mark(t, id)) && Survive(t, Mark(t, id), {id}) && Mark(t, id).attachments == t.attachments
    ensures id in Mark(t, id).segments <==> Attached(t.attachments, id) > 0
  {
    hide Attached, PlacesOfPid;
    var u := Mark(t, id);
    assert SegmentOk(t, id);
    if t.segments[id].attachCount == 0 {
      NotAttached(t.attachments, id);
      assert u.attachments == t.attachments;
    }
    forall i | i in u.segments ensures SegmentOk(u, i) { assert SegmentOk(t, i); }
    SegmentsShrink(t, u);
  }

  lemma NotAttached(a: Attachments, id: int)
    requires Attached(a, id) == 0
    ensures forall k | k in a :: a[k].0 != id
  {
    forall k | k in a ensures a[k].0 != id { assert a[k].0 == id ==> k in PlacesOf(a, id); }
  }

  // ---------- what each operation does ----------

  datatype ShmOp =
    | GetOp(key: int, size: nat, create: bool, excl: bool, permissions: nat, memory: bool)
    | AtOp(pid: nat, shmid: int, addr: nat, rnd: bool, base: Option<nat>, mapped: bool)
    | DtOp(pid: nat, addr: nat)
    | RmidOp(shmid: int)
    | ExitOp(pid: nat)

  /** The table afterwards, and the value returned. */
  datatype Effect = Effect(table: Table, reply: Result<int>)

  function Create(t: Table, key: int, size: nat, permissions: nat, memory: bool): (e: Effect) {
    if |t.segments| >= SHMMNI then Effect(t, Err(ENOMEM))
    else if !memory then Effect(t.(next := t.next + 1), Err(ENOMEM))
    else Effect(t.(segments := t.segments[t.next := Segment(key, t.next, AlignUp(size), permissions, 0, false)], next := t.next + 1),
                Ok(t.next))
  }

  ghost predicate HasKey(t: Table, id: int, key: int) {
    id in t.segments && t.segments[id].key == key && !t.segments[id].marked
  }

  ghost function Get(t: Table, key: int, size: nat, create: bool, excl: bool, permissions: nat, memory: bool): (e: Effect) {
    if !(SHMMIN <= size <= SHMMAX) then Effect(t, Err(EINVAL))
    else if key == IPC_PRIVATE then Create(t, key, size, permissions, memory)
    else if exists id :: HasKey(t, id, key) then
      var id :| HasKey(t, id, key);
      Effect(t, if create && excl then Err(EEXIST) else if size > t.segments[id].size then Err(EINVAL) else Ok(id))
    else if create then Create(t, key, size, permissions, memory)
    else Effect(t, Err(ENOENT))
  }

  /** The attach address: chosen by the kernel, given, or rounded down. */
  function AttachAddress(shmaddr: nat, rnd: bool, base: Option<nat>): (r: Result<nat>)
    ensures shmaddr == 0 ==> (r.Ok? <==> base.Some?) && (r.Ok? ==> r.value == base.value)
    ensures shmaddr != 0 ==> (r.Err? <==> shmaddr % PAGE_SIZE != 0 && !rnd)
    ensures r.Err? ==> r == Err(if shmaddr == 0 then ENOMEM else EINVAL)
    ensures shmaddr != 0 && r.Ok? ==> r.value % PAGE_SIZE == 0 && r.value <= shmaddr < r.value + PAGE_SIZE
  {
    if shmaddr == 0 then (if base.Some? then Ok(base.value) else Err(ENOMEM))
    else if shmaddr % PAGE_SIZE != 0 then (if rnd then Ok(shmaddr / PAGE_SIZE * PAGE_SIZE) else Err(EINVAL))
    else Ok(shmaddr)
  }

  function Attach(t: Table, pid: nat, shmid: int, shmaddr: nat, rnd: bool, base: Option<nat>, mapped: bool): (e: Effect) {
    if shmid !in t.segments then Effect(t, Err(EINVAL))
    else if |PlacesOfPid(t.attachments, pid)| >= SHMSEG then Effect(t, Err(EMFILE))
    else
      var s, a := t.segments[shmid], AttachAddress(shmaddr, rnd, base);
      if s.marked then Effect(t, Err(EINVAL))
      else if a.Err? then Effect(t, a)
      else if a.value + s.size >= USIZE then Effect(t, Err(ENOMEM))
      else if !mapped || (pid, a.value) in t.attachments then Effect(t, Err(EINVAL))
      else Effect(t.(attachments := t.attachments[(pid, a.value) := (shmid, s.size)],
                     segments := t.segments[shmid := s.(attachCount := s.attachCount + 1)]), a)
  }

  /** The table without the attachments in `gone`: counts are what is left, and marked segments nobody has attached
      any more are gone too. */
  ghost function Without(t: Table, gone: set<Place>): (r: Table) {
    var a := t.attachments - gone;
    t.(attachments := a,
       segments := map id | id in t.segments && !(t.segments[id].marked && Attached(a, id) == 0) ::
                     t.segments[id].(attachCount := Attached(a, id)))
  }

  ghost function Step(t: Table, op: ShmOp): (e: Effect) {
    match op
    case GetOp(key, size, create, excl, permissions, memory) => Get(t, key, size, create, excl, permissions, memory)
    case AtOp(pid, shmid, addr, rnd, base, mapped) => Attach(t, pid, shmid, addr, rnd, base, mapped)
    case DtOp(pid, addr) =>
      if addr != 0 && (pid, addr) in t.attachments then Effect(Detach(t, (pid, addr)), Ok(0)) else Effect(t, Err(EINVAL))
    case RmidOp(shmid) => if shmid in t.segments then Effect(Mark(t, shmid), Ok(0)) else Effect(t, Err(EINVAL))
    case ExitOp(pid) => Effect(Without(t, PlacesOfPid(t.attachments, pid)), Ok(0))
  }

  // ---------- detaching many ----------

  lemma WithoutNone(t: Table)
    requires TableOk(t)
    ensures Without(t, {}) == t
  {
    hide Attached;
    assert t.attachments - {} == t.attachments;
    forall id | id in t.segments
      ensures !(t.segments[id].marked && Attached(t.attachments, id) == 0) && t.segments[id].attachCount == Attached(t.attachments, id)
    {
      assert SegmentOk(t, id);
    }
  }

  /** Detaching one more place. */
  lemma WithoutOneMore(t: Table, gone: set<Place>, k: Place)
    requires TableOk(t) && TableOk(Without(t, gone)) && k in t.attachments && k !in gone
    ensures Detach(Without(t, gone), k) == Without(t, gone + {k})
  {
    hide Attached, Detach, TableOk;
    var u, v := Without(t, gone), Without(t, gone + {k});
    DetachForm(u, k);
    var a, d := t.attachments - gone, Detach(u, k);
    assert a - {k} == t.attachments - (gone + {k});
    forall id | id in t.segments
      ensures id in d.segments <==> id in v.segments
      ensures id in d.segments ==> d.segments[id] == v.segments[id]
    {
      AttachedRemove(a, k, id);
    }
    assert d.segments == v.segments;
  }

  lemma DetachIsWithout(t: Table, k: Place)
    requires TableOk(t) && k in t.attachments
    ensures Detach(t, k) == Without(t, {k})
    ensures forall id | id in Detach(t, k).segments ::
              id in t.segments && Detach(t, k).segments[id] == t.segments[id].(attachCount := Attached(Detach(t, k).attachments, id))
  {
    hide TableOk, Without, Detach, Attached;
    WithoutNone(t);
    WithoutOneMore(t, {}, k);
    assert {} + {k} == {k};
    WithoutSegments(t, {k});
  }

  lemma {:induction false} WithoutOk(t: Table, gone: set<Place>)
    requires TableOk(t) && gone <= t.attachments.Keys
    ensures TableOk(Without(t, gone)) && Survive(t, Without(t, gone), {})
    decreases |gone|
  {
    hide TableOk, Survive, Without, Detach, Attached;
    if gone == {} {
      WithoutNone(t);
      IpcManager.SurviveRefl(t);
    } else {
      var k :| k in gone;
      var rest := gone - {k};
      WithoutOk(t, rest);
      WithoutPlaces(t, rest);
      WithoutOneMore(t, rest, k);
      assert rest + {k} == gone;
      DetachOk(Without(t, rest), k);
      SurviveTrans(t, Without(t, rest), Without(t, gone), {}, {});
    }
  }

  lemma WithoutPlaces(t: Table, gone: set<Place>)
    ensures Without(t, gone).attachments == t.attachments - gone
  {
  }

  lemma WithoutSegments(t: Table, gone: set<Place>)
    ensures var u := Without(t, gone);
            && u.next == t.next
            && (forall id | id in t.segments :: id in u.segments <==> !(t.segments[id].marked && Attached(u.attachments, id) == 0))
            && (forall id | id in u.segments ::
                  id in t.segments && u.segments[id] == t.segments[id].(attachCount := Attached(u.attachments, id)))
  {
    hide Attached;
  }

  // ---------- what every operation keeps ----------

  lemma CreateKeeps(t: Table, key: int, size: nat, permissions: nat, memory: bool)
    requires TableOk(t)
    requires key == IPC_PRIVATE || forall i | i in t.segments && Named(t.segments[i]) :: t.segments[i].key != key
    ensures var u := Create(t, key, size, permissions, memory).table; TableOk(u) && Survive(t, u, {})
  {
    hide TableOk, Survive;
    IpcManager.SurviveRefl(t);
    IpcManager.BumpNext(t);
    if |t.segments| < SHMMNI && memory { CreateOk(t, Segment(key, t.next, AlignUp(size), permissions, 0, false)); }
  }

  lemma GetKeeps(t: Table, key: int, size: nat, create: bool, excl: bool, permissions: nat, memory: bool)
    requires TableOk(t)
    ensures var u := Get(t, key, size, create, excl, permissions, memory).table; TableOk(u) && Survive(t, u, {})
  {
    hide TableOk, Survive, Create;
    IpcManager.SurviveRefl(t);
    if key == IPC_PRIVATE {
      CreateKeeps(t, key, size, permissions, memory);
    } else if !exists id :: HasKey(t, id, key) {
      assert forall i | i in t.segments && Named(t.segments[i]) :: t.segments[i].key != key by {
        assert forall i | i in t.segments :: !HasKey(t, i, key);
      }
      CreateKeeps(t, key, size, permissions, memory);
    }
  }

  lemma AttachKeeps(t: Table, pid: nat, shmid: int, shmaddr: nat, rnd: bool, base: Option<nat>, mapped: bool)
    requires TableOk(t)
    ensures var u := Attach(t, pid, shmid, shmaddr, rnd, base, mapped).table; TableOk(u) && Survive(t, u, {})
  {
    hide TableOk, Survive, PlacesOfPid;
    IpcManager.SurviveRefl(t);
    var a := AttachAddress(shmaddr, rnd, base);
    if shmid in t.segments && a.Ok? && (pid, a.value) !in t.attachments && |PlacesOfPid(t.attachments, pid)| < SHMSEG {
      AttachOk(t, (pid, a.value), shmid, t.segments[shmid].size);
    }
  }

  function Marked(op: ShmOp): (ids: set<int>) {
    if op.RmidOp? then {op.shmid} else {}
  }

  lemma StepKeeps(t: Table, op: ShmOp)
    requires TableOk(t)
    ensures TableOk(Step(t, op).table) && Survive(t, Step(t, op).table, Marked(op))
  {
    hide TableOk, Survive, Get, Attach, Detach, Mark, Without, Attached;
    IpcManager.SurviveRefl(t);
    match op
    case GetOp(key, size, create, excl, permissions, memory) => GetKeeps(t, key, size, create, excl, permissions, memory);
    case AtOp(pid, shmid, addr, rnd, base, mapped) => AttachKeeps(t, pid, shmid, addr, rnd, base, mapped);
    case DtOp(pid, addr) => if (pid, addr) in t.attachments { DetachOk(t, (pid, addr)); }
    case RmidOp(shmid) =>
      IpcManager.SurviveMore(t, shmid);
      if shmid in t.segments { MarkOk(t, shmid); }
    case ExitOp(pid) => WithoutOk(t, PlacesOfPid(t.attachments, pid));
  }

  // ---------- the manager ----------

  class IpcManager {
    var segments: map<int, Segment>
    var attachments: Attachments
    var nextShmid: nat

    function Value(): (t: Table)
      reads this
    {
      Table(segments, attachments, nextShmid)
    }

    constructor ()
      ensures TableOk(Value()) && segments == map[] && attachments == map[] && nextShmid == 1
    {
      segments, attachments, nextShmid := map[], map[], 1;
    }

    /** `find_shm_by_key`: the identifiers in increasing order. */
    method FindByKey(key: int) returns (r: Option<int>)
      requires TableOk(Value())
      ensures r.None? <==> forall i | i in segments :: segments[i].marked || segments[i].key != key
      ensures r.Some? ==> r.value in segments && segments[r.value].key == key && !segments[r.value].marked
    {
      for id := 1 to nextShmid
        invariant forall i | i in segments && i < id :: segments[i].marked || segments[i].key != key
      {
        if id in segments && segments[id].key == key && !segments[id].marked { return Some(id); }
      }
      assert forall i | i in segments :: i < nextShmid by { assert forall i | i in segments :: SegmentOk(Value(), i); }
      return None;
    }

    /** `create_shm`; `memory` tells whether the frames could be allocated. An identifier is used up either way. */
    method CreateShm(key: int, size: nat, permissions: nat, memory: bool) returns (r: Result<int>)
      requires TableOk(Value())
      requires key == IPC_PRIVATE || forall i | i in segments && Named(segments[i]) :: segments[i].key != key
      modifies this
      ensures TableOk(Value()) && Survive(old(Value()), Value(), {}) && attachments == old(attachments)
      ensures Effect(Value(), r) == Create(old(Value()), key, size, permissions, memory)
      ensures r.Ok? <==> |old(segments)| < SHMMNI && memory
      ensures r.Ok? ==> r.value == old(nextShmid) && r.value !in old(segments) &&
                        segments == old(segments)[r.value := Segment(key, r.value, AlignUp(size), permissions, 0, false)]
      ensures r.Err? ==> r == Err(ENOMEM) && segments == old(segments)
    {
      hide TableOk, Survive;
      ghost var t := Value();
      assert Survive(t, t, {}) by { SurviveRefl(t); }
      if |segments| >= SHMMNI { return Err(ENOMEM); }
      var id := nextShmid;
      nextShmid := nextShmid + 1;
      assert TableOk(Value()) && Survive(t, Value(), {}) by { BumpNext(t); }
      if !memory { return Err(ENOMEM); }
      CreateOk(t, Segment(key, id, AlignUp(size), permissions, 0, false));
      segments := segments[id := Segment(key, id, AlignUp(size), permissions, 0, false)];
      assert id !in t.segments by { BumpNext(t); }
      return Ok(id);
    }

    static lemma SurviveRefl(t: Table)
      ensures Survive(t, t, {})
    {
    }

    static lemma BumpNext(t: Table)
      requires TableOk(t)
      ensures TableOk(t.(next := t.next + 1)) && Survive(t, t.(next := t.next + 1), {}) && t.next !in t.segments
    {
      var u := t.(next := t.next + 1);
      NextUnused(t);
      forall id | id in u.segments ensures SegmentOk(u, id) { assert SegmentOk(t, id); }
    }

    /** `sys_shmget`: the unmarked segment of that key, or a new one. */
    method ShmGet(key: int, size: nat, create: bool, excl: bool, permissions: nat, memory: bool) returns (r: Result<int>)
      requires TableOk(Value())
      modifies this
      ensures Effect(Value(), r) == Step(old(Value()), GetOp(key, size, create, excl, permissions, memory))
      ensures TableOk(Value()) && Survive(old(Value()), Value(), {}) && attachments == old(attachments)
      ensures r.Ok? ==> r.value in segments && !segments[r.value].marked && segments[r.value].key == key && size <= segments[r.value].size
      ensures r.Ok? && key == IPC_PRIVATE ==> r.value !in old(segments)
      ensures r.Ok? && key != IPC_PRIVATE ==> forall i | i in segments && Named(segments[i]) && segments[i].key == key :: i == r.value
      ensures !(SHMMIN <= size <= SHMMAX) ==> r == Err(EINVAL)
      ensures r == Err(EEXIST) <==> && SHMMIN <= size <= SHMMAX && key != IPC_PRIVATE && create && excl
                                    && exists i | i in old(segments) :: Named(old(segments)[i]) && old(segments)[i].key == key
      ensures r == Err(ENOENT) <==> && SHMMIN <= size <= SHMMAX && key != IPC_PRIVATE && !create
                                    && forall i | i in old(segments) :: !(Named(old(segments)[i]) && old(segments)[i].key == key)
      ensures r.Err? ==> segments == old(segments)
      ensures r.Ok? <==> && SHMMIN <= size <= SHMMAX
                         && if exists i :: NamedBy(old(segments), i, key) then
                              !(create && excl) && forall i | NamedBy(old(segments), i, key) :: size <= old(segments)[i].size
                            else (key == IPC_PRIVATE || create) && |old(segments)| < SHMMNI && memory
      ensures r == Err(EINVAL) <==> || !(SHMMIN <= size <= SHMMAX)
                                    || (!(create && excl) && exists i :: NamedBy(old(segments), i, key) && size > old(segments)[i].size)
      ensures r.Err? ==> r.error != EMFILE
      ensures r.Ok? ==> if exists i :: NamedBy(old(segments), i, key) then segments == old(segments)
                        else && r.value == old(nextShmid) && r.value !in old(segments)
                             && segments == old(segments)[r.value := segments[r.value]]
                             && segments[r.value].id == r.value && segments[r.value].permissions == permissions
                             && segments[r.value].attachCount == 0 && segments[r.value].size < size + PAGE_SIZE
                             && segments[r.value].size % PAGE_SIZE == 0
    {
      hide TableOk, Survive, Create;
      assert Survive(Value(), Value(), {}) by { SurviveRefl(Value()); }
      if size < SHMMIN || size > SHMMAX { return Err(EINVAL); }
      if key == IPC_PRIVATE {
        r := CreateShm(key, size, permissions, memory);
        return;
      }
      var found := FindByKey(key);
      if found.Some? {
        assert Named(segments[found.value]) && HasKey(Value(), found.value, key);
        assert NamedBy(segments, found.value, key);
        OneOfKey(Value(), key, found.value);
        if create && excl { return Err(EEXIST); }
        if size > segments[found.value].size { return Err(EINVAL); }
        assert forall i | i in segments && Named(segments[i]) && segments[i].key == key :: i == found.value by { KeyUnique(Value(), found.value); }
        return Ok(found.value);
      }
      if !create { return Err(ENOENT); }
      r := CreateShm(key, size, permissions, memory);
    }

    static lemma OneOfKey(t: Table, key: int, id: int)
      requires TableOk(t) && key != IPC_PRIVATE && HasKey(t, id, key)
      ensures forall i | HasKey(t, i, key) :: i == id
    {
    }

    static lemma KeyUnique(t: Table, id: int)
      requires TableOk(t) && id in t.segments && Named(t.segments[id])
      ensures forall i | i in t.segments && Named(t.segments[i]) && t.segments[i].key == t.segments[id].key :: i == id
    {
    }

    /** `sys_shmat`. `base` is what `alloc_mmap_base` gives, `mapped` whether the range was free and the area could
        be inserted. An attachment is recorded and counted together, or not at all. */
    method ShmAt(pid: nat, shmid: int, shmaddr: nat, rnd: bool, base: Option<nat>, mapped: bool) returns (r: Result<nat>)
      requires TableOk(Value())
      modifies this
      ensures Effect(Value(), r) == Step(old(Value()), AtOp(pid, shmid, shmaddr, rnd, base, mapped))
      ensures TableOk(Value()) && Survive(old(Value()), Value(), {}) && nextShmid == old(nextShmid)
      ensures r.Err? ==> Value() == old(Value())
      ensures r.Ok? ==>
                && shmid in old(segments) && !old(segments)[shmid].marked && (pid, r.value) !in old(attachments)
                && attachments == old(attachments)[(pid, r.value) := (shmid, old(segments)[shmid].size)]
                && segments == old(segments)[shmid := old(segments)[shmid].(attachCount := old(segments)[shmid].attachCount + 1)]
      ensures shmid !in old(segments) ==> r == Err(EINVAL)
      ensures r == Err(EMFILE) <==> shmid in old(segments) && |PlacesOfPid(old(attachments), pid)| >= SHMSEG
      ensures shmid in old(segments) && old(segments)[shmid].marked ==> r.Err?
      ensures var a := AttachAddress(shmaddr, rnd, base);
              && (r.Ok? <==> && shmid in old(segments) && !old(segments)[shmid].marked && |PlacesOfPid(old(attachments), pid)| < SHMSEG
                             && a.Ok? && a.value + old(segments)[shmid].size < USIZE && mapped && (pid, a.value) !in old(attachments))
              && (r.Ok? ==> r == a)
              && (r == Err(ENOMEM) <==> && shmid in old(segments) && !old(segments)[shmid].marked
                                        && |PlacesOfPid(old(attachments), pid)| < SHMSEG
                                        && (a == Err(ENOMEM) || (a.Ok? && a.value + old(segments)[shmid].size >= USIZE)))
              && (r.Err? ==> r.error in {EINVAL, ENOMEM, EMFILE})
    {
      hide TableOk, Survive;
      ghost var t := Value();
      assert Survive(t, t, {}) by { SurviveRefl(t); }
      if shmid !in segments { return Err(EINVAL); }
      if |PlacesOfPid(attachments, pid)| >= SHMSEG { return Err(EMFILE); }
      if segments[shmid].marked { return Err(EINVAL); }
      var size := segments[shmid].size;
      var addr := AttachAddress(shmaddr, rnd, base);
      if addr.Err? { return addr; }
      if addr.value + size >= USIZE { return Err(ENOMEM); }
      if !mapped { return Err(EINVAL); }
      var k := (pid, addr.value);
      if k in attachments { return Err(EINVAL); }
      AttachOk(t, k, shmid, size);
      attachments := attachments[k := (shmid, size)];
      segments := segments[shmid := segments[shmid].(attachCount := segments[shmid].attachCount + 1)];
      return Ok(addr.value);
    }

    /** The common part of `sys_shmdt` and the cleanup at exit. */
    method DetachAt(k: Place)
      requires TableOk(Value()) && k in attachments
      modifies this
      ensures Value() == Detach(old(Value()), k)
    {
      var shmid := attachments[k].0;
      attachments := attachments - {k};
      var remove := false;
      if shmid in segments {
        var s := segments[shmid];
        if s.attachCount > 0 { s := s.(attachCount := s.attachCount - 1); }
        segments := segments[shmid := s];
        remove := s.marked && s.attachCount == 0;
      }
      if remove {
        segments := segments - {shmid};
        attachments := map x | x in attachments && attachments[x].0 != shmid :: attachments[x];
      }
    }

    /** `sys_shmdt`. */
    method ShmDt(pid: nat, shmaddr: nat) returns (r: Result<nat>)
      requires TableOk(Value())
      modifies this
      ensures Effect(Value(), r) == Step(old(Value()), DtOp(pid, shmaddr))
      ensures TableOk(Value()) && Survive(old(Value()), Value(), {})
      ensures r.Ok? <==> shmaddr != 0 && (pid, shmaddr) in old(attachments)
      ensures r.Err? ==> r == Err(EINVAL) && Value() == old(Value())
      ensures r.Ok? ==> attachments == old(attachments) - {(pid, shmaddr)}
      ensures r.Ok? ==> forall id | id in old(segments) ::
                id in segments <==> !(old(segments)[id].marked && Attached(attachments, id) == 0)
      ensures nextShmid == old(nextShmid)
      ensures r.Ok? ==> forall id | id in segments ::
                id in old(segments) && segments[id] == old(segments)[id].(attachCount := Attached(attachments, id))
    {
      hide TableOk, Survive, Detach, Attached;
      assert Survive(Value(), Value(), {}) by { SurviveRefl(Value()); }
      if shmaddr == 0 { return Err(EINVAL); }
      if (pid, shmaddr) !in attachments { return Err(EINVAL); }
      DetachOk(Value(), (pid, shmaddr));
      DetachIsWithout(Value(), (pid, shmaddr));
      DetachAt((pid, shmaddr));
      return Ok(0);
    }

    /** `sys_shmctl` with IPC_RMID. */
    method Rmid(shmid: int) returns (r: Result<nat>)
      requires TableOk(Value())
      modifies this
      ensures Effect(Value(), r) == Step(old(Value()), RmidOp(shmid))
      ensures TableOk(Value()) && Survive(old(Value()), Value(), {shmid}) && attachments == old(attachments)
      ensures r.Ok? <==> shmid in old(segments)
      ensures r.Err? ==> Value() == old(Value())
      ensures r.Ok? ==> (shmid in segments <==> Attached(attachments, shmid) > 0)
      ensures nextShmid == old(nextShmid) && forall id | id in old(segments) && id != shmid :: id in segments
      ensures forall id | id in segments ::
                id in old(segments) && segments[id] == if id == shmid then old(segments)[id].(marked := true) else old(segments)[id]
    {
      hide TableOk, Survive, Attached;
      ghost var t := Value();
      if shmid !in segments {
        assert Survive(t, t, {shmid}) by { SurviveMore(t, shmid); }
        return Err(EINVAL);
      }
      MarkOk(t, shmid);
      segments := segments[shmid := segments[shmid].(marked := true)];
      if segments[shmid].attachCount == 0 {
        segments := segments - {shmid};
        attachments := map x | x in attachments && attachments[x].0 != shmid :: attachments[x];
      }
      return Ok(0);
    }

    static lemma SurviveMore(t: Table, id: int)
      ensures Survive(t, t, {id})
    {
    }

    /** `cleanup_shm_attachments_for_pid`: every attachment of the process goes, and no other. */
    method Cleanup(pid: nat)
      requires TableOk(Value())
      modifies this
      ensures Value() == Step(old(Value()), ExitOp(pid)).table
      ensures TableOk(Value()) && Survive(old(Value()), Value(), {})
      ensures attachments == map k | k in old(attachments) && k.0 != pid :: old(attachments)[k]
      ensures nextShmid == old(nextShmid) && forall id | id in old(segments) ::
                id in segments <==> !(old(segments)[id].marked && Attached(attachments, id) == 0)
      ensures forall id | id in segments ::
                id in old(segments) && segments[id] == old(segments)[id].(attachCount := Attached(attachments, id))
    {
      hide TableOk, Survive, Detach, Without, Attached;
      ghost var t, all := Value(), PlacesOfPid(attachments, pid);
      WithoutNone(t);
      var todo := PlacesOfPid(attachments, pid);
      assert all - todo == {};
      while todo != {}
        invariant todo <= all && Value() == Without(t, all - todo)
        decreases |todo|
      {
        var k :| k in todo;
        WithoutOk(t, all - todo);
        WithoutPlaces(t, all - todo);
        WithoutOneMore(t, all - todo, k);
        DetachAt(k);
        assert all - todo + {k} == all - (todo - {k});
        todo := todo - {k};
      }
      assert all - {} == all;
      WithoutOk(t, all);
      WithoutPlaces(t, all);
      WithoutSegments(t, all);
    }
  }

  // ---------- runs ----------

  /** The table after a run. */
  ghost function ApplyAll(t: Table, ops: seq<ShmOp>): (r: Table)
    decreases |ops|
  {
    if ops == [] then t else Step(ApplyAll(t, ops[..|ops| - 1]), ops[|ops| - 1]).table
  }

  /** What each call returned. */
  ghost function Replies(t: Table, ops: seq<ShmOp>): (rs: seq<Result<int>>)
    decreases |ops|
  {
    if ops == [] then [] else Replies(t, ops[..|ops| - 1]) + [Step(ApplyAll(t, ops[..|ops| - 1]), ops[|ops| - 1]).reply]
  }

  /** The segments some IPC_RMID of the run names. */
  ghost function Removed(ops: seq<ShmOp>): (ids: set<int>)
    decreases |ops|
  {
    if ops == [] then {} else Removed(ops[..|ops| - 1]) + Marked(ops[|ops| - 1])
  }

  /** Over every run the invariant holds, and an unmarked segment is never removed or changed unless some IPC_RMID
      names it. */
  lemma {:induction false} RunsKeep(t: Table, ops: seq<ShmOp>)
    requires TableOk(t)
    ensures TableOk(ApplyAll(t, ops)) && Survive(t, ApplyAll(t, ops), Removed(ops))
    decreases |ops|
  {
    hide TableOk, Survive, Step;
    if ops == [] {
      IpcManager.SurviveRefl(t);
    } else {
      var n := |ops| - 1;
      var u := ApplyAll(t, ops[..n]);
      RunsKeep(t, ops[..n]);
      StepKeeps(u, ops[n]);
      SurviveTrans(t, u, ApplyAll(t, ops), Removed(ops[..n]), Marked(ops[n]));
    }
  }

  /** Performs a run: the end state and every reply are those of the fold. */
  method Run(m: IpcManager, ops: seq<ShmOp>) returns (replies: seq<Result<int>>)
    requires TableOk(m.Value())
    modifies m
    ensures m.Value() == ApplyAll(old(m.Value()), ops) && replies == Replies(old(m.Value()), ops)
    ensures TableOk(m.Value()) && Survive(old(m.Value()), m.Value(), Removed(ops))
  {
    hide TableOk, Survive, Step;
    replies := [];
    assert ops[..0] == [];
    for i := 0 to |ops|
      invariant TableOk(m.Value()) && m.Value() == ApplyAll(old(m.Value()), ops[..i])
      invariant replies == Replies(old(m.Value()), ops[..i])
    {
      assert ops[..i + 1][..i] == ops[..i];
      var r := Perform(m, ops[i]);
      replies := replies + [r];
    }
    assert ops[..|ops|] == ops;
    RunsKeep(old(m.Value()), ops);
  }

  method Perform(m: IpcManager, op: ShmOp) returns (r: Result<int>)
    requires TableOk(m.Value())
    modifies m
    ensures TableOk(m.Value()) && Effect(m.Value(), r) == Step(old(m.Value()), op)
  {
    hide TableOk, Survive, Attached, PlacesOfPid, Get, Attach, Detach, Mark, Without;
    match op {
      case GetOp(key, size, create, excl, permissions, memory) =>
        r := m.ShmGet(key, size, create, excl, permissions, memory);
      case AtOp(pid, shmid, addr, rnd, base, mapped) =>
        r := m.ShmAt(pid, shmid, addr, rnd, base, mapped);
      case DtOp(pid, addr) =>
        r := m.ShmDt(pid, addr);
      case RmidOp(shmid) =>
        r := m.Rmid(shmid);
      case ExitOp(pid) =>
        m.Cleanup(pid);
        r := Ok(0);
    }
  }
}
