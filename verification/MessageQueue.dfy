/** SysV message queues: accounting, and which message `msgrcv` takes. */
module MessageQueues {
  import opened Collections
  import opened Blocks

  const MSGMAX: nat := 8192
  const MSGMNB: nat := 16384
  /** `isize::MIN`, the one value `-` leaves negative. */
  const ISIZE_MIN: int := -0x8000_0000_0000_0000
  type Isize = x: int | ISIZE_MIN <= x < 0x8000_0000_0000_0000

  datatype Message = Message(mtype: Isize, mtext: seq<Byte>)
  datatype Flags = Flags(noWait: bool, noError: bool, except: bool, copy: bool)
  datatype MsgError = EINVAL | EAGAIN | ENOMSG | E2BIG
  datatype Received = Ok(msg: Message) | Err(error: MsgError)

  ghost function Bytes(ms: seq<Message>): (n: nat)
    decreases |ms|
  {
    if ms == [] then 0 else Bytes(ms[..|ms| - 1]) + |ms[|ms| - 1].mtext|
  }

  function RemoveAt(ms: seq<Message>, i: nat): (r: seq<Message>)
    requires i < |ms|
  {
    ms[..i] + ms[i + 1..]
  }

  lemma BytesAppend(ms: seq<Message>, m: Message)
    ensures Bytes(ms + [m]) == Bytes(ms) + |m.mtext|
  {
    assert (ms + [m])[..|ms|] == ms;
  }

  lemma {:induction false} BytesRemove(ms: seq<Message>, i: nat)
    requires i < |ms|
    ensures Bytes(RemoveAt(ms, i)) == Bytes(ms) - |ms[i].mtext|
    decreases |ms|
  {
    var last := |ms| - 1;
    var r := RemoveAt(ms, i);
    if i == last {
      assert r == ms[..last];
    } else {
      BytesRemove(ms[..last], i);
      assert r[..|r| - 1] == RemoveAt(ms[..last], i);
    }
  }

  // ---------- the selection rule ----------

  /** Messages the caller asks for: any, one type, any other type, or any type up to `-typ`. */
  predicate Wanted(m: Message, typ: Isize, except: bool) {
    if typ == 0 then true
    else if typ > 0 then (m.mtype == typ) != except
    else (m.mtype as int) <= -(typ as int)
  }

  /** The rule of msgrcv() in POSIX.1-2017 System Interfaces, with MSG_EXCEPT: the first wanted message, and for a
      negative type the first of the lowest type. */
  ghost predicate Chosen(ms: seq<Message>, typ: Isize, except: bool, i: nat) {
    && i < |ms| && Wanted(ms[i], typ, except)
    && (forall j | 0 <= j < i && Wanted(ms[j], typ, except) :: typ < 0 && ms[j].mtype > ms[i].mtype)
    && (forall j | i < j < |ms| && Wanted(ms[j], typ, except) :: typ < 0 ==> ms[j].mtype >= ms[i].mtype)
  }

  lemma ChosenUnique(ms: seq<Message>, typ: Isize, except: bool, i: nat, j: nat)
    requires Chosen(ms, typ, except, i) && Chosen(ms, typ, except, j)
    ensures i == j
  {
  }

  /** The rule case by case: the head of the queue; the first of the type, or of the other types; of the messages up
      to a type, the first of the lowest type in the queue. */
  lemma ChosenExactly(ms: seq<Message>, typ: Isize, except: bool, i: nat)
    ensures typ == 0 ==> (Chosen(ms, typ, except, i) <==> i == 0 < |ms|)
    ensures typ > 0 ==> (Chosen(ms, typ, except, i) <==>
              && i < |ms| && (ms[i].mtype != typ <==> except)
              && forall j | 0 <= j < i :: ms[j].mtype == typ <==> except)
    ensures typ < 0 ==> (Chosen(ms, typ, except, i) <==>
              && i < |ms| && (ms[i].mtype as int) <= -(typ as int)
              && (forall j | 0 <= j < |ms| :: ms[j].mtype >= ms[i].mtype)
              && forall j | 0 <= j < i :: ms[j].mtype > ms[i].mtype)
  {
    if 0 < i < |ms| && typ == 0 { assert Wanted(ms[0], typ, except); }
    if typ < 0 && i < |ms| {
      assert forall j | 0 <= j < |ms| && !Wanted(ms[j], typ, except) :: (ms[j].mtype as int) > -(typ as int);
    }
  }

  /** A chosen message is the first of its type, so messages of one type leave in the order they came. */
  lemma ChosenIsFirstOfType(ms: seq<Message>, typ: Isize, except: bool, i: nat)
    requires Chosen(ms, typ, except, i)
    ensures forall j | 0 <= j < i :: ms[j].mtype != ms[i].mtype
  {
  }

  /** `-msgtyp` in 64-bit arithmetic. */
  function Negated(typ: Isize): (n: Isize) { if typ == ISIZE_MIN then ISIZE_MIN else -typ }

  /** The scan for a negative type. */
  method LowestUpTo(ms: seq<Message>, bound: Isize) returns (best: Option<nat>)
    ensures best.None? <==> forall j | 0 <= j < |ms| :: ms[j].mtype > bound
    ensures best.Some? ==> best.value < |ms| && ms[best.value].mtype <= bound
    ensures best.Some? ==> forall j | 0 <= j < |ms| :: ms[j].mtype >= ms[best.value].mtype
    ensures best.Some? ==> forall j | 0 <= j < best.value :: ms[j].mtype > ms[best.value].mtype
  {
    best := None;
    var bestType: Option<Isize> := None;
    for idx := 0 to |ms|
      invariant best.Some? == bestType.Some?
      invariant best.None? ==> forall j | 0 <= j < idx :: ms[j].mtype > bound
      invariant best.Some? ==> best.value < idx && ms[best.value].mtype == bestType.value <= bound
      invariant best.Some? ==> forall j | 0 <= j < idx :: ms[j].mtype >= bestType.value
      invariant best.Some? ==> forall j | 0 <= j < best.value :: ms[j].mtype > bestType.value
    {
      if ms[idx].mtype <= bound && (bestType.None? || ms[idx].mtype < bestType.value) {
        bestType := Some(ms[idx].mtype);
        best := Some(idx);
      }
    }
  }

  method Position(ms: seq<Message>, typ: Isize, except: bool) returns (pos: Option<nat>)
    ensures pos.None? <==> forall j | 0 <= j < |ms| :: (ms[j].mtype == typ) == except
    ensures pos.Some? ==> pos.value < |ms| && (ms[pos.value].mtype == typ) != except
    ensures pos.Some? ==> forall j | 0 <= j < pos.value :: (ms[j].mtype == typ) == except
  {
    for idx := 0 to |ms|
      invariant forall j | 0 <= j < idx :: (ms[j].mtype == typ) == except
    {
      if (ms[idx].mtype == typ) != except { return Some(idx); }
    }
    return None;
  }

  /** Where some message is wanted, the rule chooses one. */
  lemma {:induction false} ChosenExists(ms: seq<Message>, typ: Isize, except: bool) returns (i: nat)
    requires exists j | 0 <= j < |ms| :: Wanted(ms[j], typ, except)
    ensures Chosen(ms, typ, except, i)
    decreases |ms|
  {
    var last := |ms| - 1;
    if exists j | 0 <= j < last :: Wanted(ms[..last][j], typ, except) {
      i := ChosenExists(ms[..last], typ, except);
      if Wanted(ms[last], typ, except) && typ < 0 && ms[last].mtype < ms[i].mtype { i := last; }
    } else {
      assert forall j | 0 <= j < last :: !Wanted(ms[j], typ, except) by {
        assert forall j | 0 <= j < last :: ms[..last][j] == ms[j];
      }
      i := last;
    }
  }

  /** The index the rule chooses. */
  ghost function ByRule(ms: seq<Message>, typ: Isize, except: bool): (pos: Option<nat>)
    ensures pos.Some? <==> exists j | 0 <= j < |ms| :: Wanted(ms[j], typ, except)
    ensures pos.Some? ==> Chosen(ms, typ, except, pos.value)
  {
    if exists j | 0 <= j < |ms| :: Wanted(ms[j], typ, except) then
      assert exists i :: Chosen(ms, typ, except, i) by { var i := ChosenExists(ms, typ, except); }
      var i: nat :| Chosen(ms, typ, except, i);
      Some(i)
    else None
  }

  /** The index `receive` works on: the least 64-bit type asks for nothing. */
  ghost function Picked(ms: seq<Message>, typ: Isize, except: bool): (pos: Option<nat>) {
    if typ == ISIZE_MIN then None else ByRule(ms, typ, except)
  }

  /** The code meets the rule exactly when the type is not the least 64-bit one, or the queue is empty. */
  lemma SelectMeetsRuleExactly(ms: seq<Message>, typ: Isize, except: bool)
    ensures Picked(ms, typ, except) == ByRule(ms, typ, except) <==> (typ != ISIZE_MIN || ms == [])
  {
    if typ == ISIZE_MIN && ms != [] { assert Wanted(ms[0], typ, except); }
  }

  /** The message `receive` picks. */
  method Select(ms: seq<Message>, typ: Isize, except: bool) returns (pos: Option<nat>)
    requires forall j | 0 <= j < |ms| :: 0 < ms[j].mtype
    ensures pos == Picked(ms, typ, except)
    ensures pos == ByRule(ms, typ, except) <==> (typ != ISIZE_MIN || ms == [])
  {
    SelectMeetsRuleExactly(ms, typ, except);
    if typ == 0 {
      if |ms| == 0 { return None; }
      assert Wanted(ms[0], typ, except);
      pos := Some(0);
    } else if typ > 0 {
      pos := Position(ms, typ, except);
    } else {
      pos := LowestUpTo(ms, Negated(typ));
      if typ > ISIZE_MIN && pos.Some? { assert Wanted(ms[pos.value], typ, except); }
    }
    if pos.Some? { ChosenUnique(ms, typ, except, pos.value, ByRule(ms, typ, except).value); }
  }

  // ---------- per-type order ----------

  function OfType(ms: seq<Message>, t: int): (r: seq<Message>)
    decreases |ms|
  {
    if ms == [] then [] else OfType(ms[..|ms| - 1], t) + if ms[|ms| - 1].mtype == t then [ms[|ms| - 1]] else []
  }

  lemma OfTypeLast(ms: seq<Message>, m: Message, t: int)
    ensures OfType(ms + [m], t) == OfType(ms, t) + if m.mtype == t then [m] else []
  {
    assert (ms + [m])[..|ms|] == ms;
  }

  lemma {:induction false} OfTypeConcat(a: seq<Message>, b: seq<Message>, t: int)
    ensures OfType(a + b, t) == OfType(a, t) + OfType(b, t)
    decreases |b|
  {
    if b == [] {
      assert a + b == a;
    } else {
      hide OfType;
      var n := |b| - 1;
      OfTypeConcat(a, b[..n], t);
      assert a + b == (a + b[..n]) + [b[n]] && b == b[..n] + [b[n]];
      OfTypeLast(a + b[..n], b[n], t);
      OfTypeLast(b[..n], b[n], t);
    }
  }

  lemma {:induction false} OfTypeNone(ms: seq<Message>, t: int)
    requires forall j | 0 <= j < |ms| :: ms[j].mtype != t
    ensures OfType(ms, t) == []
    decreases |ms|
  {
    if ms != [] { OfTypeNone(ms[..|ms| - 1], t); }
  }

  /** Taking the first message of its type takes the head of that type's messages, and no other type's. */
  lemma OfTypeRemove(ms: seq<Message>, i: nat, t: int)
    requires i < |ms| && forall j | 0 <= j < i :: ms[j].mtype != ms[i].mtype
    ensures OfType(ms, t) == OfType([ms[i]], t) + OfType(RemoveAt(ms, i), t)
  {
    hide OfType;
    var a, b := ms[..i], ms[i + 1..];
    assert ms == a + ([ms[i]] + b);
    OfTypeConcat(a, [ms[i]] + b, t);
    OfTypeConcat([ms[i]], b, t);
    OfTypeConcat(a, b, t);
    if ms[i].mtype == t { OfTypeNone(a, t); } else { OfTypeNone([ms[i]], t); }
  }

  // ---------- one operation ----------

  /** What the operations act on. */
  datatype Queue = Queue(messages: seq<Message>, maxBytes: nat, permissions: nat)

  ghost predicate QueueOk(q: Queue) {
    && Bytes(q.messages) <= MSGMNB && 0 < q.maxBytes <= MSGMNB
    && forall j | 0 <= j < |q.messages| :: 0 < q.messages[j].mtype
  }

  datatype QueueOp =
    | SendOp(msg: Message)
    | ReceiveOp(typ: Isize, size: nat, flags: Flags)
    | SetOp(bytes: nat, mode: nat)

  datatype Reply = Sent(refused: Option<MsgError>) | Got(result: Received) | Set(ok: bool)

  /** The outcome of `msgsnd`. */
  ghost function SendReply(q: Queue, m: Message): (r: Option<MsgError>) {
    if m.mtype <= 0 || |m.mtext| > MSGMAX then Some(EINVAL)
    else if Bytes(q.messages) + |m.mtext| > q.maxBytes then Some(EAGAIN)
    else None
  }

  /** The outcome of `msgrcv` on the message at index `pos`. */
  function Taking(ms: seq<Message>, pos: Option<nat>, size: nat, noError: bool): (r: Received) {
    if pos.None? || pos.value >= |ms| then Err(ENOMSG)
    else if |ms[pos.value].mtext| > size && !noError then Err(E2BIG)
    else Ok(ms[pos.value])
  }

  /** The index `msgrcv` works on; with MSG_COPY the type is an index. */
  ghost function At(q: Queue, typ: Isize, flags: Flags): (pos: Option<nat>) {
    if !flags.copy then Picked(q.messages, typ, flags.except) else if typ < 0 then None else Some(typ)
  }

  /** The outcome of `msgrcv`. */
  ghost function ReceiveReply(q: Queue, typ: Isize, size: nat, flags: Flags): (r: Received) {
    if flags.copy && (!flags.noWait || flags.except || typ < 0) then Err(EINVAL)
    else Taking(q.messages, At(q, typ, flags), size, flags.noError)
  }

  ghost function ReplyTo(q: Queue, op: QueueOp): (r: Reply) {
    match op
    case SendOp(m) => Sent(SendReply(q, m))
    case ReceiveOp(typ, size, flags) => Got(ReceiveReply(q, typ, size, flags))
    case SetOp(bytes, mode) => Set(0 < bytes <= MSGMNB)
  }

  /** The queue afterwards: refusals and MSG_COPY leave it alone. */
  ghost function After(q: Queue, op: QueueOp): (r: Queue) {
    match op
    case SendOp(m) => if SendReply(q, m).None? then q.(messages := q.messages + [m]) else q
    case ReceiveOp(typ, size, flags) =>
      var pos := At(q, typ, flags);
      if flags.copy || ReceiveReply(q, typ, size, flags).Err? || pos.None? || pos.value >= |q.messages| then q
      else q.(messages := RemoveAt(q.messages, pos.value))
    case SetOp(bytes, mode) => if 0 < bytes <= MSGMNB then q.(maxBytes := bytes, permissions := mode % 512) else q
  }

  // ---------- the queue ----------

  class MessageQueue {
    var messages: seq<Message>
    var totalBytes: nat
    var maxBytes: nat
    var permissions: nat
    var stime: int
    var rtime: int
    var ctime: int
    var lspid: int
    var lrpid: int

    ghost function Value(): (q: Queue)
      reads this
    {
      Queue(messages, maxBytes, permissions)
    }

    /** The byte counter is exact, and neither it nor the limit exceeds MSGMNB. */
    ghost predicate Valid()
      reads this
    {
      totalBytes == Bytes(messages) && QueueOk(Value())
    }

    constructor (permissions: nat, now: int)
      ensures Valid() && Value() == Queue([], MSGMNB, permissions)
      ensures stime == rtime == lspid == lrpid == 0 && ctime == now
    {
      messages, totalBytes, maxBytes, this.permissions := [], 0, MSGMNB, permissions;
      stime, rtime, ctime, lspid, lrpid := 0, 0, now, 0, 0;
    }

    /** `send`, after `sys_msgsnd` refused types that are not positive. */
    method Send(msg: Message, pid: int, now: int) returns (err: Option<MsgError>)
      requires Valid()
      modifies this
      ensures Valid() && Value() == After(old(Value()), SendOp(msg)) && err == SendReply(old(Value()), msg)
      ensures err == Some(EAGAIN) <==> 0 < msg.mtype && |msg.mtext| <= MSGMAX && old(totalBytes) + |msg.mtext| > maxBytes
      ensures err == Some(EINVAL) <==> msg.mtype <= 0 || |msg.mtext| > MSGMAX
      ensures err.None? <==> err != Some(EAGAIN) && err != Some(EINVAL)
      ensures messages == if err.None? then old(messages) + [msg] else old(messages)
      ensures err.None? ==> lspid == pid && stime == now && totalBytes <= maxBytes
      ensures lrpid == old(lrpid) && rtime == old(rtime) && ctime == old(ctime)
    {
      hide Bytes;
      if msg.mtype <= 0 || |msg.mtext| > MSGMAX { return Some(EINVAL); }
      if totalBytes + |msg.mtext| > maxBytes { return Some(EAGAIN); }
      BytesAppend(messages, msg);
      messages := messages + [msg];
      totalBytes := totalBytes + |msg.mtext|;
      stime, lspid := now, pid;
      return None;
    }

    /** `receive`: MSG_COPY reads the message at an index; otherwise the message the rule chooses is removed, the
        rest keeping their order. A refusal changes nothing. */
    method Receive(typ: Isize, size: nat, flags: Flags, pid: int, now: int) returns (r: Received)
      requires Valid()
      modifies this
      ensures Valid() && Value() == After(old(Value()), ReceiveOp(typ, size, flags))
      ensures r == ReceiveReply(old(Value()), typ, size, flags)
      ensures r.Err? || flags.copy ==> messages == old(messages) && lrpid == old(lrpid) && rtime == old(rtime)
      ensures r.Ok? && !flags.copy ==> exists i: nat | i < |old(messages)| ::
                Chosen(old(messages), typ, flags.except, i) && r.msg == old(messages)[i] && messages == RemoveAt(old(messages), i)
      ensures r.Ok? && !flags.copy ==> lrpid == pid && rtime == now
      ensures r.Ok? && flags.copy ==> flags.noWait && !flags.except && 0 <= typ < |messages| && r.msg == messages[typ]
      ensures r == Err(EINVAL) <==> flags.copy && (!flags.noWait || flags.except || typ < 0)
      ensures r.Err? ==> r.error != EAGAIN
      ensures !flags.copy && typ > ISIZE_MIN ==>
                (r == Err(ENOMSG) <==> forall j | 0 <= j < |old(messages)| :: !Wanted(old(messages)[j], typ, flags.except))
      ensures !flags.copy && typ == ISIZE_MIN ==> r == Err(ENOMSG)
      ensures !flags.copy && typ > ISIZE_MIN ==>
                (r == Err(ENOMSG) <==> forall m | m in old(messages) ::
                   typ != 0 && if typ > 0 then (m.mtype == typ) == flags.except else (m.mtype as int) > -(typ as int))
      ensures flags.copy && r != Err(EINVAL) ==> (r == Err(ENOMSG) <==> typ >= |messages|)
      ensures r.Ok? ==> |r.msg.mtext| <= size || flags.noError
      ensures r == Err(E2BIG) ==> !flags.noError && exists i: nat | i < |messages| ::
                (if flags.copy then i == typ else Chosen(messages, typ, flags.except, i)) && |messages[i].mtext| > size
    {
      hide Chosen, Bytes, ByRule;
      if flags.copy {
        if !flags.noWait || flags.except || typ < 0 { return Err(EINVAL); }
        if typ >= |messages| { return Err(ENOMSG); }
        var msg := messages[typ];
        if |msg.mtext| > size && !flags.noError { return Err(E2BIG); }
        return Ok(msg);
      }
      var pos := Select(messages, typ, flags.except);
      if pos.None? { return Err(ENOMSG); }
      var i := pos.value;
      assert i < |messages| && Wanted(messages[i], typ, flags.except) by { ChosenIn(messages, typ, flags.except, i); }
      if |messages[i].mtext| > size && !flags.noError { return Err(E2BIG); }
      var msg := messages[i];
      BytesRemove(messages, i);
      messages := RemoveAt(messages, i);
      totalBytes := totalBytes - |msg.mtext|;
      rtime, lrpid := now, pid;
      return Ok(msg);
    }

    static lemma ChosenIn(ms: seq<Message>, typ: Isize, except: bool, i: nat)
      requires Chosen(ms, typ, except, i)
      ensures i < |ms| && Wanted(ms[i], typ, except)
    {
    }

    /** IPC_SET: the limit can only be set up to MSGMNB, and may fall below what is queued. */
    method SetLimit(bytes: nat, mode: nat, now: int) returns (ok: bool)
      requires Valid()
      modifies this
      ensures Valid() && Value() == After(old(Value()), SetOp(bytes, mode)) && totalBytes == old(totalBytes)
      ensures ok <==> 0 < bytes <= MSGMNB
      ensures ok ==> maxBytes == bytes && permissions < 0x200 && (mode - permissions) % 0x200 == 0 && ctime == now
      ensures messages == old(messages) && (!ok ==> Value() == old(Value()) && ctime == old(ctime))
    {
      hide Bytes;
      if bytes == 0 || bytes > MSGMNB { return false; }
      permissions, maxBytes, ctime := mode % 512, bytes, now;
      return true;
    }
  }

  // ---------- runs ----------

  /** What happened so far: per type, the messages received followed by those queued are those sent. */
  ghost predicate InOrder(sent: seq<Message>, received: seq<Message>, queued: seq<Message>) {
    forall t :: OfType(sent, t) == OfType(received, t) + OfType(queued, t)
  }

  lemma SentOne(sent: seq<Message>, received: seq<Message>, queued: seq<Message>, m: Message)
    requires InOrder(sent, received, queued)
    ensures InOrder(sent + [m], received, queued + [m])
  {
    hide OfType;
    forall t ensures OfType(sent + [m], t) == OfType(received, t) + OfType(queued + [m], t) {
      OfTypeConcat(sent, [m], t);
      OfTypeConcat(queued, [m], t);
    }
  }

  lemma ReceivedOne(sent: seq<Message>, received: seq<Message>, queued: seq<Message>, typ: Isize, except: bool, i: nat)
    requires InOrder(sent, received, queued) && Chosen(queued, typ, except, i)
    ensures InOrder(sent, received + [queued[i]], RemoveAt(queued, i))
  {
    hide OfType, Chosen, RemoveAt;
    MessageQueue.ChosenIn(queued, typ, except, i);
    ChosenIsFirstOfType(queued, typ, except, i);
    forall t ensures OfType(sent, t) == OfType(received + [queued[i]], t) + OfType(RemoveAt(queued, i), t) {
      OfTypeConcat(received, [queued[i]], t);
      OfTypeRemove(queued, i, t);
    }
  }

  /** The queue after a run. */
  ghost function RunFrom(q: Queue, ops: seq<QueueOp>): (r: Queue)
    decreases |ops|
  {
    if ops == [] then q else After(RunFrom(q, ops[..|ops| - 1]), ops[|ops| - 1])
  }

  /** The reply to each operation. */
  ghost function Replies(q: Queue, ops: seq<QueueOp>): (rs: seq<Reply>)
    ensures |rs| == |ops|
    decreases |ops|
  {
    if ops == [] then [] else Replies(q, ops[..|ops| - 1]) + [ReplyTo(RunFrom(q, ops[..|ops| - 1]), ops[|ops| - 1])]
  }

  /** The messages sent and accepted, in order. */
  function Accepted(ops: seq<QueueOp>, rs: seq<Reply>): (ms: seq<Message>)
    requires |rs| == |ops|
    decreases |ops|
  {
    if ops == [] then []
    else
      var n := |ops| - 1;
      Accepted(ops[..n], rs[..n]) + if ops[n].SendOp? && rs[n] == Sent(None) then [ops[n].msg] else []
  }

  /** The messages received and removed, in order. */
  function Taken(ops: seq<QueueOp>, rs: seq<Reply>): (ms: seq<Message>)
    requires |rs| == |ops|
    decreases |ops|
  {
    if ops == [] then []
    else
      var n := |ops| - 1;
      Taken(ops[..n], rs[..n]) +
      if ops[n].ReceiveOp? && !ops[n].flags.copy && rs[n].Got? && rs[n].result.Ok? then [rs[n].result.msg] else []
  }

  lemma AfterOk(q: Queue, op: QueueOp)
    requires QueueOk(q)
    ensures QueueOk(After(q, op))
  {
    hide Bytes, Picked;
    match op
    case SendOp(m) => BytesAppend(q.messages, m);
    case ReceiveOp(typ, size, flags) =>
      var pos := At(q, typ, flags);
      if pos.Some? && pos.value < |q.messages| { BytesRemove(q.messages, pos.value); }
    case SetOp(_, _) =>
  }

  /** One operation keeps the order within each type. */
  lemma AfterInOrder(q: Queue, op: QueueOp, sent: seq<Message>, received: seq<Message>)
    requires InOrder(sent, received, q.messages)
    ensures var r := ReplyTo(q, op);
            InOrder(sent + Accepted([op], [r]), received + Taken([op], [r]), After(q, op).messages)
  {
    hide InOrder, Chosen, ByRule, Bytes;
    var r := ReplyTo(q, op);
    OneReply(op, r);
    assert sent + [] == sent && received + [] == received;
    match op
    case SendOp(m) => SentOne(sent, received, q.messages, m);
    case ReceiveOp(typ, size, flags) =>
      if !flags.copy && r.result.Ok? {
        ReceivedOne(sent, received, q.messages, typ, flags.except, At(q, typ, flags).value);
      }
    case SetOp(_, _) =>
  }

  lemma OneReply(op: QueueOp, r: Reply)
    ensures Accepted([op], [r]) == if op.SendOp? && r == Sent(None) then [op.msg] else []
    ensures Taken([op], [r]) == if op.ReceiveOp? && !op.flags.copy && r.Got? && r.result.Ok? then [r.result.msg] else []
  {
    assert [op][..0] == [] && [r][..0] == [];
  }

  /** Over every run from a valid queue the queued bytes stay within MSGMNB, and within each type the messages queued
      at first and those accepted are those received followed by those still queued: none is lost, copied or
      overtaken. */
  lemma {:induction false} RunsKeepOrder(q: Queue, ops: seq<QueueOp>)
    requires QueueOk(q)
    ensures QueueOk(RunFrom(q, ops))
    ensures var rs := Replies(q, ops);
            InOrder(q.messages + Accepted(ops, rs), Taken(ops, rs), RunFrom(q, ops).messages)
    decreases |ops|
  {
    hide InOrder, After, ReplyTo, QueueOk, Accepted, Taken;
    var rs := Replies(q, ops);
    if ops == [] {
      NothingDone(q.messages);
      NothingMoved(q.messages);
    } else {
      var n := |ops| - 1;
      var before, op, s := ops[..n], ops[n], RunFrom(q, ops[..n]);
      RunsKeepOrder(q, before);
      assert rs[..n] == Replies(q, before) && rs[n] == ReplyTo(s, op);
      AfterOk(s, op);
      AfterInOrder(s, op, q.messages + Accepted(before, rs[..n]), Taken(before, rs[..n]));
      LastReply(ops, rs);
      Regroup(q.messages, Accepted(before, rs[..n]), Accepted([op], [rs[n]]));
    }
  }

  lemma NothingMoved(ms: seq<Message>)
    ensures ms + Accepted([], []) == ms && Taken([], []) == []
  {
  }

  lemma LastReply(ops: seq<QueueOp>, rs: seq<Reply>)
    requires |rs| == |ops| > 0
    ensures var n := |ops| - 1;
            && Accepted(ops, rs) == Accepted(ops[..n], rs[..n]) + Accepted([ops[n]], [rs[n]])
            && Taken(ops, rs) == Taken(ops[..n], rs[..n]) + Taken([ops[n]], [rs[n]])
  {
    OneReply(ops[|ops| - 1], rs[|ops| - 1]);
  }

  lemma Regroup(a: seq<Message>, b: seq<Message>, c: seq<Message>)
    ensures a + (b + c) == (a + b) + c
  {
  }

  lemma NothingDone(ms: seq<Message>)
    ensures InOrder(ms, [], ms)
  {
    forall t ensures OfType(ms, t) == OfType([], t) + OfType(ms, t) { assert OfType([], t) == []; }
  }

  /** Performs a run on a queue: its end state and every reply are those of the fold. */
  method Serve(q: MessageQueue, ops: seq<QueueOp>) returns (replies: seq<Reply>)
    requires q.Valid()
    modifies q
    ensures q.Valid() && q.Value() == RunFrom(old(q.Value()), ops) && replies == Replies(old(q.Value()), ops)
    ensures InOrder(old(q.messages) + Accepted(ops, replies), Taken(ops, replies), q.messages)
  {
    hide After, ReplyTo, QueueOk, Bytes, SendReply, ReceiveReply, InOrder;
    replies := [];
    assert ops[..0] == [];
    for i := 0 to |ops|
      invariant q.Valid() && q.Value() == RunFrom(old(q.Value()), ops[..i]) && replies == Replies(old(q.Value()), ops[..i])
    {
      assert ops[..i + 1][..i] == ops[..i];
      var r := Perform(q, ops[i], i);
      replies := replies + [r];
    }
    assert ops[..|ops|] == ops;
    RunsKeepOrder(old(q.Value()), ops);
  }

  method Perform(q: MessageQueue, op: QueueOp, now: int) returns (r: Reply)
    requires q.Valid()
    modifies q
    ensures q.Valid() && q.Value() == After(old(q.Value()), op) && r == ReplyTo(old(q.Value()), op)
  {
    hide QueueOk, Bytes, Chosen, ByRule;
    match op {
      case SendOp(m) =>
        var err := q.Send(m, 0, now);
        r := Sent(err);
      case ReceiveOp(typ, size, flags) =>
        var got := q.Receive(typ, size, flags, 0, now);
        r := Got(got);
      case SetOp(bytes, mode) =>
        var ok := q.SetLimit(bytes, mode, now);
        r := Set(ok);
    }
  }
}
