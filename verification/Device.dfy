/** `process_queue_serial`: every drained chain becomes a reader and a writer, is
    handled, and is returned to the used ring with the length the handler reported. */
module Device {
  import opened GuestMemory
  import opened Chain
  import opened Cursor
  import opened Messages
  import opened Requests
  import opened FsModel
  import opened Inodes
  import opened Replies
  import opened Handlers

  /** A descriptor chain taken from the available ring. */
  datatype DescChain = DescChain(head: nat, readable: seq<Slice>, writable: seq<Slice>)

  /** A drained chain with the answers of its surroundings: the backend, whether the
      ring takes the used entry, and what needs_notification says (None: an error). */
  datatype Job = Job(chain: DescChain, env: Env, ringOk: bool, needsNotification: Option<bool>)

  datatype UsedElem = UsedElem(head: nat, len: nat)

  datatype Progress = Progress(st: State, mem: Bytes, used: seq<UsedElem>, signals: nat, panicked: bool)

  function Signals(eventIdx: bool, needs: Option<bool>): nat {
    if eventIdx && needs == Some(false) then 0 else 1
  }

  /** One chain; a chain outside guest memory or a failing handler panics. */
  function ServeOne(p: Progress, job: Job, eventIdx: bool): Progress {
    if p.panicked then p
    else if !Mapped(job.chain.readable, |p.mem|) || !Mapped(job.chain.writable, |p.mem|) then
      p.(panicked := true)
    else
      var (st', mem', out) := Serve(p.st, job.env, p.mem, job.chain.readable, job.chain.writable);
      if !out.Ok? then p.(st := st', mem := mem', panicked := true)
      else Progress(st', mem',
                    if job.ringOk then p.used + [UsedElem(job.chain.head, out.len)] else p.used,
                    p.signals + Signals(eventIdx, job.needsNotification), false)
  }

  function ServeJobs(p: Progress, jobs: seq<Job>, eventIdx: bool): Progress {
    if jobs == [] then p
    else ServeOne(ServeJobs(p, jobs[..|jobs| - 1], eventIdx), jobs[|jobs| - 1], eventIdx)
  }

  /** The value a handler returns always fits the used ring's 32-bit length. */
  lemma UsedLenFits(st: State, env: Env, mem: Bytes, rs: seq<Slice>, ws: seq<Slice>)
    requires Serve(st, env, mem, rs, ws).2.Ok?
    ensures Serve(st, env, mem, rs, ws).2.len < U32
  {
    hide Put;
    hide OutHeader;
    hide BodyBytes;
    hide Step;
    hide Parse;
  }

  class VringState {
    var usedRing: seq<UsedElem>
    var signals: nat

    constructor ()
      ensures usedRing == [] && signals == 0
    {
      usedRing := [];
      signals := 0;
    }

    /** `return_descriptor`: file the used entry, then signal unless told not to. */
    method ReturnDescriptor(head: nat, eventIdx: bool, len: nat, ringOk: bool, needs: Option<bool>)
      requires len < U32
      modifies this
      ensures usedRing == if ringOk then old(usedRing) + [UsedElem(head, len)] else old(usedRing)
      ensures signals == old(signals) + Signals(eventIdx, needs)
    {
      if ringOk {
        usedRing := usedRing + [UsedElem(head, len)];
      }
      if eventIdx {
        match needs
        case None => signals := signals + 1;
        case Some(needed) =>
          if needed {
            signals := signals + 1;
          }
      } else {
        signals := signals + 1;
      }
    }
  }

  /** One drained chain: map it, handle it, return it. */
  method ProcessChain(server: Filesystem, mem: array<u8>, vring: VringState, job: Job, eventIdx: bool)
    returns (panicked: bool)
    modifies server, mem, vring
    ensures Progress(server.Abs(), mem[..], vring.usedRing, vring.signals, panicked) ==
              ServeOne(old(Progress(server.Abs(), mem[..], vring.usedRing, vring.signals, false)), job, eventIdx)
  {
    var rs := NewBuffers(job.chain.readable, mem.Length);
    if rs.None? {
      return true;
    }
    var ws := NewBuffers(job.chain.writable, mem.Length);
    if ws.None? {
      return true;
    }
    var reader := new Reader(mem, rs.value);
    var tail := new DescriptorChainConsumer(ws.value);
    var writer := new Writer(mem, tail);
    ghost var st, m := server.Abs(), mem[..];
    var out := server.HandleMessage(reader, writer, job.env);
    assert (server.Abs(), mem[..], out) == Serve(st, job.env, m, job.chain.readable, job.chain.writable);
    if !out.Ok? {
      return true;
    }
    UsedLenFits(st, job.env, m, job.chain.readable, job.chain.writable);
    hide Serve;
    vring.ReturnDescriptor(job.chain.head, eventIdx, out.len, job.ringOk, job.needsNotification);
    return false;
  }

  /** The drain loop. */
  method ProcessQueueSerial(server: Filesystem, mem: array<u8>, vring: VringState, jobs: seq<Job>, eventIdx: bool)
    returns (usedAny: bool, panicked: bool)
    modifies server, mem, vring
    ensures Progress(server.Abs(), mem[..], vring.usedRing, vring.signals, panicked) ==
              ServeJobs(old(Progress(server.Abs(), mem[..], vring.usedRing, vring.signals, false)), jobs, eventIdx)
    ensures usedAny <==> jobs != []
  {
    ghost var p0 := Progress(server.Abs(), mem[..], vring.usedRing, vring.signals, false);
    assert jobs[..0] == [] && jobs[..|jobs|] == jobs;
    assert ServeJobs(p0, [], eventIdx) == p0;
    hide ServeJobs;
    hide ServeOne;
    usedAny, panicked := false, false;
    var i := 0;
    while i < |jobs|
      invariant 0 <= i <= |jobs| && !panicked && (usedAny <==> i > 0)
      invariant Progress(server.Abs(), mem[..], vring.usedRing, vring.signals, false)
             == ServeJobs(p0, jobs[..i], eventIdx)
    {
      usedAny := true;
      ServeJobsNext(p0, jobs, i, eventIdx);
      panicked := ProcessChain(server, mem, vring, jobs[i], eventIdx);
      i := i + 1;
      if panicked {
        PanicStays(p0, jobs, i, eventIdx);
        return;
      }
    }
  }

  lemma ServeJobsNext(p: Progress, jobs: seq<Job>, i: nat, eventIdx: bool)
    requires i < |jobs|
    ensures ServeJobs(p, jobs[..i + 1], eventIdx) == ServeOne(ServeJobs(p, jobs[..i], eventIdx), jobs[i], eventIdx)
  {
    hide ServeOne;
    assert jobs[..i + 1][..i] == jobs[..i];
  }

  lemma PanickedStops(p: Progress, job: Job, eventIdx: bool)
    requires p.panicked
    ensures ServeOne(p, job, eventIdx) == p
  {
  }

  lemma {:induction false} PanicStays(p: Progress, jobs: seq<Job>, i: nat, eventIdx: bool)
    requires i <= |jobs| && ServeJobs(p, jobs[..i], eventIdx).panicked
    ensures ServeJobs(p, jobs, eventIdx) == ServeJobs(p, jobs[..i], eventIdx)
    decreases |jobs|
  {
    hide ServeOne;
    if i == |jobs| {
      assert jobs[..i] == jobs;
    } else {
      var n := |jobs| - 1;
      assert jobs[..n][..i] == jobs[..i];
      PanicStays(p, jobs[..n], i, eventIdx);
      PanickedStops(ServeJobs(p, jobs[..n], eventIdx), jobs[n], eventIdx);
    }
  }

  lemma ServedAppends(p: Progress, job: Job, eventIdx: bool)
    requires !ServeOne(p, job, eventIdx).panicked && job.ringOk
    ensures !p.panicked
    ensures var used := ServeOne(p, job, eventIdx).used;
      && |used| == |p.used| + 1 && used[..|p.used|] == p.used
      && used[|p.used|].head == job.chain.head
  {
    hide Serve;
  }

  /** If no chain panics and the ring takes every entry, the drained chains are returned
      exactly once each, in order. */
  lemma {:induction false} ReturnedInOrder(p: Progress, jobs: seq<Job>, eventIdx: bool)
    requires !ServeJobs(p, jobs, eventIdx).panicked
    requires forall i :: 0 <= i < |jobs| ==> jobs[i].ringOk
    ensures !p.panicked
    ensures var used := ServeJobs(p, jobs, eventIdx).used;
      && |used| == |p.used| + |jobs| && used[..|p.used|] == p.used
      && forall i :: 0 <= i < |jobs| ==> used[|p.used| + i].head == jobs[i].chain.head
    decreases |jobs|
  {
    hide ServeOne;
    if jobs != [] {
      var n := |jobs| - 1;
      var before := ServeJobs(p, jobs[..n], eventIdx);
      ServedAppends(before, jobs[n], eventIdx);
      ReturnedInOrder(p, jobs[..n], eventIdx);
      var used := ServeJobs(p, jobs, eventIdx).used;
      forall i | 0 <= i < |jobs| ensures used[|p.used| + i].head == jobs[i].chain.head {
        if i < n {
          assert used[|p.used| + i] == before.used[|p.used| + i];
          assert jobs[..n][i] == jobs[i];
        }
      }
      assert used[..|p.used|] == before.used[..|p.used|];
    }
  }

  /** The driver has said, through the event index, that it need not be told. */
  predicate Quiet(job: Job, eventIdx: bool) { eventIdx && job.needsNotification == Some(false) }

  /** A served chain is announced exactly once, unless the driver asked for silence: an
      error when asking counts as a yes. */
  lemma SignalExactly(p: Progress, job: Job, eventIdx: bool)
    requires !p.panicked && !ServeOne(p, job, eventIdx).panicked
    ensures var signals := ServeOne(p, job, eventIdx).signals;
      && (signals == p.signals || signals == p.signals + 1)
      && (signals == p.signals <==> Quiet(job, eventIdx))
  {
    hide Serve;
  }

  lemma PanicSignalsNothing(p: Progress, job: Job, eventIdx: bool)
    requires ServeOne(p, job, eventIdx).panicked
    ensures ServeOne(p, job, eventIdx).signals == p.signals && ServeOne(p, job, eventIdx).used == p.used
  {
    hide Serve;
  }

  /** The two requests that are never answered. */
  predicate NeverAnswered(op: Op) { op.Forget? || op.Destroy? }

  /** The guest finds in the first 16 bytes of a reply chain a header with this length
      that echoes this request. */
  ghost predicate HeaderAt(mem: Bytes, ws: seq<Slice>, len: nat, unique: nat) {
    && |Cells(ws)| >= OUT_HEADER_SIZE
    && var v := View(mem, Cells(ws)); HeaderLen(v) == len && HeaderUnique(v) == unique % U64
  }

  ghost predicate OnlyCells(mem: Bytes, mem': Bytes, cells: seq<nat>) {
    && |mem'| == |mem|
    && forall a :: a !in cells ==> ByteAt(mem', a) == ByteAt(mem, a)
  }

  /** Over the whole dispatcher: whatever request a chain holds, unless it is one of the
      two that are never answered, a chain that is served at all gets a header that
      echoes the request and carries the returned length; nothing else has changed. */
  lemma ReplyOfOne(p: Progress, job: Job, eventIdx: bool)
    requires !p.panicked && !ServeOne(p, job, eventIdx).panicked && NoDup(Cells(job.chain.writable))
    ensures var p' := ServeOne(p, job, eventIdx);
            var msg := Parse(p.mem, job.chain.readable);
            var ws := job.chain.writable;
            var len := Serve(p.st, job.env, p.mem, job.chain.readable, ws).2.len;
      && OnlyCells(p.mem, p'.mem, Cells(ws))
      && p'.used == (if job.ringOk then p.used + [UsedElem(job.chain.head, len)] else p.used)
      && if NeverAnswered(msg.op) then len == 0 && p'.mem == p.mem
         else HeaderAt(p'.mem, ws, len, msg.unique)
  {
    hide Step, Parse, Emit, Laid, Cells;
    var ws, mem := job.chain.writable, p.mem;
    WithinRegion(ws, |mem|);
    var msg := Parse(mem, job.chain.readable);
    var (st', ans) := Step(p.st, msg, job.env, |Cells(ws)|);
    StepErrno(p.st, msg, job.env, |Cells(ws)|);
    SilentExactly(p.st, msg, job.env, |Cells(ws)|);
    EmitSilent(mem, ws, msg.unique);
    EmitLength(mem, ws, msg.unique, ans);
    if !ans.Silent? {
      Framing(mem, ws, msg.unique, ans);
    }
  }

  lemma WithinRegion(ws: seq<Slice>, size: nat)
    requires Mapped(ws, size)
    ensures Within(Cells(ws), size)
  {
    assert forall i :: 0 <= i < |ws| ==> InRegion(ws[i], size);
    WithinSlices(ws, size);
  }

  lemma EmitSilent(mem: Bytes, ws: seq<Slice>, unique: nat)
    ensures Emit(mem, ws, unique, Silent) == (mem, Ok(0))
  {
  }

  lemma EmitLength(mem: Bytes, ws: seq<Slice>, unique: nat, ans: Answer)
    ensures |Emit(mem, ws, unique, ans).0| == |mem|
  {
    hide Put, OutHeader, BodyBytes, Dirents, Cells;
  }

  // ---- what kills the device thread ---------------------------------------

  /** Size of the body of a successful reply. */
  function BodySize(op: Op): nat {
    match op
    case Init(_, _) => 64
    case Lookup(_) => 128
    case Getattr => 104
    case Setattr => 104
    case Create(_, _) => 144
    case Open(_) => 16
    case Write(_, _, _) => 8
    case Mkdir(_) => 128
    case Opendir => 16
    case _ => 0
  }

  lemma ReplySize(st: State, msg: Msg, env: Env, room: nat)
    ensures var ans := Step(st, msg, env, room).1;
      ans.Reply? ==> |BodyBytes(ans.body)| == BodySize(msg.op)
  {
    hide EntryOut, AttrOut, InitOut, ListEntries, GetMetadata, SetWriter;
    hide Insert, Join, Delete, ReleaseWriter, WritePath, ReadPath;
  }

  /** The request cannot be read to its end, or its name length underflows. */
  predicate Unreadable(st: State, msg: Msg) {
    || msg.op.Truncated? || msg.op.Underflow?
    || (msg.op.Readdir? && msg.op.at.None? && PathOf(st, msg.nodeid).Some?)
  }

  lemma UnreadableExactly(st: State, msg: Msg, env: Env, room: nat)
    ensures var ans := Step(st, msg, env, room).1;
      && (Unreadable(st, msg) ==> ans.Abort? || ans.Crash?)
      && (ans.Abort? || ans.Crash? ==> Unreadable(st, msg) || room < OUT_HEADER_SIZE)
  {
    hide ListEntries, GetMetadata, SetWriter;
  }

  /** Exactly which chains end the device thread: those outside guest memory, those
      whose request is unreadable, and those whose reply chain is too short -- for the
      header if the reply has no body, for header and body if it has one. */
  lemma PanicsExactly(p: Progress, job: Job, eventIdx: bool)
    requires !p.panicked
    ensures var msg, room := Parse(p.mem, job.chain.readable), |Cells(job.chain.writable)|;
            var ans := Step(p.st, msg, job.env, room).1;
      ServeOne(p, job, eventIdx).panicked <==>
        || !Mapped(job.chain.readable, |p.mem|) || !Mapped(job.chain.writable, |p.mem|)
        || Unreadable(p.st, msg)
        || (!NeverAnswered(msg.op)
            && room < OUT_HEADER_SIZE + if ans.Reply? then BodySize(msg.op) else 0)
  {
    hide Step, Parse, Emit, Cells, Mapped, BodyBytes;
    var ws := job.chain.writable;
    var msg, room := Parse(p.mem, job.chain.readable), |Cells(ws)|;
    var (st', ans) := Step(p.st, msg, job.env, room);
    ReplySize(p.st, msg, job.env, room);
    UnreadableExactly(p.st, msg, job.env, room);
    SilentExactly(p.st, msg, job.env, room);
    EmitDelivers(p.mem, ws, msg.unique, ans);
  }

  lemma SilentExactly(st: State, msg: Msg, env: Env, room: nat)
    ensures Step(st, msg, env, room).1.Silent? <==> msg.op.Forget? || msg.op.Destroy?
  {
  }

  lemma StepErrno(st: State, msg: Msg, env: Env, room: nat)
    ensures Step(st, msg, env, room).1.Errno? ==> Step(st, msg, env, room).1.code < U32
  {
  }

  /** Whatever the guest puts into its chains, draining the queue keeps the inode table
      sound and never withdraws a slot, even when a handler panics half-way. */
  lemma {:induction false} DrainKeepsTable(p: Progress, jobs: seq<Job>, eventIdx: bool)
    requires TableInv(p.st)
    ensures TableInv(ServeJobs(p, jobs, eventIdx).st)
    ensures p.st.slab <= ServeJobs(p, jobs, eventIdx).st.slab
    decreases |jobs|
  {
    hide ServeOne;
    hide TableInv;
    if jobs != [] {
      var n := |jobs| - 1;
      DrainKeepsTable(p, jobs[..n], eventIdx);
      ServeKeepsTable(ServeJobs(p, jobs[..n], eventIdx), jobs[n], eventIdx);
    }
  }

  lemma ServeKeepsTable(p: Progress, job: Job, eventIdx: bool)
    requires TableInv(p.st)
    ensures TableInv(ServeOne(p, job, eventIdx).st)
    ensures p.st.slab <= ServeOne(p, job, eventIdx).st.slab
  {
    hide TableInv, Step, Parse, Emit, Cells, Mapped;
    StepInv(p.st, Parse(p.mem, job.chain.readable), job.env, |Cells(job.chain.writable)|);
  }
}
