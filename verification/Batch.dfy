/** A whole drained batch: what the guest finds in all reply chains once the last one
    has been served, and the used entries that go with them. */
module Batch {
  import opened GuestMemory
  import opened Chain
  import opened Cursor
  import opened Messages
  import opened Requests
  import opened FsModel
  import opened Replies
  import opened Handlers
  import opened Device
  import Queue

  ghost predicate Disjoint(a: seq<nat>, b: seq<nat>) { forall x :: x in a ==> x !in b }

  /** No reply chain repeats a cell, meets another reply chain, or lies over a request
      that is served later. */
  ghost predicate Apart(jobs: seq<Job>) {
    && (forall i :: 0 <= i < |jobs| ==> NoDup(Cells(jobs[i].chain.writable)))
    && (forall i, j :: 0 <= i < j < |jobs| ==>
          && Disjoint(Cells(jobs[i].chain.writable), Cells(jobs[j].chain.writable))
          && Disjoint(Cells(jobs[i].chain.writable), Cells(jobs[j].chain.readable)))
  }

  lemma ApartPrefix(jobs: seq<Job>, n: nat)
    requires Apart(jobs) && n <= |jobs|
    ensures Apart(jobs[..n])
  {
    hide Cells, NoDup, Disjoint;
  }

  /** The only bytes that differ lie in reply chains of the batch. */
  ghost predicate OnlyReplies(mem: Bytes, mem': Bytes, jobs: seq<Job>) {
    && |mem'| == |mem|
    && forall a :: (forall i :: 0 <= i < |jobs| ==> a !in Cells(jobs[i].chain.writable)) ==>
         ByteAt(mem', a) == ByteAt(mem, a)
  }

  lemma OnlyRepliesNext(mem: Bytes, mem1: Bytes, mem2: Bytes, jobs: seq<Job>)
    requires jobs != [] && OnlyReplies(mem, mem1, jobs[..|jobs| - 1])
    requires OnlyCells(mem1, mem2, Cells(jobs[|jobs| - 1].chain.writable))
    ensures OnlyReplies(mem, mem2, jobs)
  {
    hide Cells;
    var n := |jobs| - 1;
    forall a | forall i :: 0 <= i < |jobs| ==> a !in Cells(jobs[i].chain.writable)
      ensures ByteAt(mem2, a) == ByteAt(mem, a)
    {
      assert a !in Cells(jobs[n].chain.writable);
      assert forall i :: 0 <= i < n ==> a !in Cells(jobs[..n][i].chain.writable);
    }
  }

  /** A chain that avoids the cells written keeps its bytes. */
  lemma SameView(mem: Bytes, mem': Bytes, cells: seq<nat>, written: seq<nat>)
    requires OnlyCells(mem, mem', written) && Disjoint(written, cells)
    ensures View(mem', cells) == View(mem, cells)
  {
    forall i | 0 <= i < |cells| ensures ByteAt(mem', cells[i]) == ByteAt(mem, cells[i]) {
      assert cells[i] in cells;
    }
  }

  /** The last request of a batch is what it was before the batch was served. */
  lemma LastRequestIntact(mem: Bytes, mem': Bytes, jobs: seq<Job>)
    requires jobs != [] && Apart(jobs) && OnlyReplies(mem, mem', jobs[..|jobs| - 1])
    ensures Parse(mem', jobs[|jobs| - 1].chain.readable) == Parse(mem, jobs[|jobs| - 1].chain.readable)
  {
    hide Cells, Parse, NoDup;
    var n := |jobs| - 1;
    var cells := Cells(jobs[n].chain.readable);
    forall k | 0 <= k < |cells| ensures ByteAt(mem', cells[k]) == ByteAt(mem, cells[k]) {
      assert cells[k] in cells;
      forall i | 0 <= i < n ensures cells[k] !in Cells(jobs[..n][i].chain.writable) {
        assert jobs[..n][i] == jobs[i];
        assert Disjoint(Cells(jobs[i].chain.writable), cells);
      }
    }
    assert View(mem', cells) == View(mem, cells);
    ParseOwnBytes(mem', mem, jobs[n].chain.readable);
  }

  lemma {:induction false} BatchFrame(p: Progress, jobs: seq<Job>, eventIdx: bool)
    requires Apart(jobs) && !ServeJobs(p, jobs, eventIdx).panicked
    ensures !p.panicked && OnlyReplies(p.mem, ServeJobs(p, jobs, eventIdx).mem, jobs)
    decreases |jobs|
  {
    hide ServeOne, Serve, Parse, Cells, NoDup;
    if jobs != [] {
      var n := |jobs| - 1;
      ApartPrefix(jobs, n);
      LivePrefix(p, jobs, eventIdx);
      BatchFrame(p, jobs[..n], eventIdx);
      var before := ServeJobs(p, jobs[..n], eventIdx);
      ReplyOfOne(before, jobs[n], eventIdx);
      OnlyRepliesNext(p.mem, before.mem, ServeJobs(p, jobs, eventIdx).mem, jobs);
    }
  }

  lemma LivePrefix(p: Progress, jobs: seq<Job>, eventIdx: bool)
    requires jobs != [] && !ServeJobs(p, jobs, eventIdx).panicked
    ensures !ServeJobs(p, jobs[..|jobs| - 1], eventIdx).panicked
  {
    hide Serve;
  }

  /** The used entry of a job, and the reply the guest finds in its chain. */
  ghost predicate Reported(before: Bytes, after: Bytes, job: Job, e: UsedElem) {
    var msg := Parse(before, job.chain.readable);
    && e.head == job.chain.head
    && if NeverAnswered(msg.op) then e.len == 0
       else HeaderAt(after, job.chain.writable, e.len, msg.unique)
  }

  /** When the last chain of a batch has been served, every chain has one used entry, in
      order, and still holds the reply to its own request with the length of that entry. */
  lemma {:induction false} BatchReported(p: Progress, jobs: seq<Job>, eventIdx: bool)
    requires Apart(jobs) && !ServeJobs(p, jobs, eventIdx).panicked
    requires forall i :: 0 <= i < |jobs| ==> jobs[i].ringOk
    ensures var end := ServeJobs(p, jobs, eventIdx);
      && |end.used| == |p.used| + |jobs| && end.used[..|p.used|] == p.used
      && forall i :: 0 <= i < |jobs| ==> Reported(p.mem, end.mem, jobs[i], end.used[|p.used| + i])
    decreases |jobs|
  {
    hide ServeOne, Serve, Parse, Cells, NoDup, HeaderAt, NeverAnswered, Reported;
    if jobs != [] {
      var n := |jobs| - 1;
      ApartPrefix(jobs, n);
      LivePrefix(p, jobs, eventIdx);
      BatchReported(p, jobs[..n], eventIdx);
      BatchFrame(p, jobs[..n], eventIdx);
      var before, end := ServeJobs(p, jobs[..n], eventIdx), ServeJobs(p, jobs, eventIdx);
      ReplyOfOne(before, jobs[n], eventIdx);
      LastRequestIntact(p.mem, before.mem, jobs);
      LastReported(p, before, jobs[n], eventIdx);
      forall i | 0 <= i < |jobs|
        ensures Reported(p.mem, end.mem, jobs[i], end.used[|p.used| + i])
      {
        if i < n {
          assert jobs[..n][i] == jobs[i];
          assert end.used[|p.used| + i] == before.used[|p.used| + i];
          StillReported(p.mem, before.mem, end.mem, jobs, i, end.used[|p.used| + i]);
        }
      }
      assert end.used[..|p.used|] == before.used[..|p.used|];
    }
  }

  lemma LastReported(p: Progress, before: Progress, job: Job, eventIdx: bool)
    requires !before.panicked && !ServeOne(before, job, eventIdx).panicked && job.ringOk
    requires NoDup(Cells(job.chain.writable))
    requires Parse(before.mem, job.chain.readable) == Parse(p.mem, job.chain.readable)
    ensures var end := ServeOne(before, job, eventIdx);
      |end.used| == |before.used| + 1 && Reported(p.mem, end.mem, job, end.used[|before.used|])
  {
    hide ServeOne, Serve, Parse, Cells, NoDup, HeaderAt;
    ReplyOfOne(before, job, eventIdx);
  }

  /** Serving the last chain leaves earlier replies as they are. */
  lemma StillReported(mem0: Bytes, mem: Bytes, mem': Bytes, jobs: seq<Job>, i: nat, e: UsedElem)
    requires Apart(jobs) && i < |jobs| - 1 && Reported(mem0, mem, jobs[i], e)
    requires OnlyCells(mem, mem', Cells(jobs[|jobs| - 1].chain.writable))
    ensures Reported(mem0, mem', jobs[i], e)
  {
    hide Cells, Parse, NoDup;
    var mine, last := Cells(jobs[i].chain.writable), Cells(jobs[|jobs| - 1].chain.writable);
    assert Disjoint(mine, last);
    assert Disjoint(last, mine);
    SameView(mem, mem', mine, last);
  }

  // ---- when a whole batch is served ---------------------------------------

  /** A chain in guest memory whose request can be read and whose reply chain has room
      for the largest reply to it: conditions on the chain as the guest made it. */
  predicate Welcome(mem: Bytes, job: Job) {
    var op := Parse(mem, job.chain.readable).op;
    && Mapped(job.chain.readable, |mem|) && Mapped(job.chain.writable, |mem|)
    && !op.Truncated? && !op.Underflow? && !(op.Readdir? && op.at.None?)
    && (NeverAnswered(op) || OUT_HEADER_SIZE + BodySize(op) <= |Cells(job.chain.writable)|)
  }

  lemma WelcomeServed(p: Progress, job: Job, eventIdx: bool)
    requires !p.panicked && Welcome(p.mem, job)
    ensures !ServeOne(p, job, eventIdx).panicked
  {
    hide ServeOne, Step, Parse, Cells, Mapped;
    PanicsExactly(p, job, eventIdx);
  }

  /** Welcome, disjoint chains are all served, whatever the backend does and whatever
      state the filesystem is in. */
  lemma {:induction false} BatchServed(p: Progress, jobs: seq<Job>, eventIdx: bool)
    requires !p.panicked && Apart(jobs)
    requires forall i :: 0 <= i < |jobs| ==> Welcome(p.mem, jobs[i])
    ensures !ServeJobs(p, jobs, eventIdx).panicked
    decreases |jobs|
  {
    hide ServeOne, Serve, Parse, Cells, NoDup, Mapped, Disjoint, BodySize;
    if jobs != [] {
      var n := |jobs| - 1;
      ApartPrefix(jobs, n);
      BatchServed(p, jobs[..n], eventIdx);
      BatchFrame(p, jobs[..n], eventIdx);
      var before := ServeJobs(p, jobs[..n], eventIdx);
      LastRequestIntact(p.mem, before.mem, jobs);
      assert Welcome(before.mem, jobs[n]);
      WelcomeServed(before, jobs[n], eventIdx);
    }
  }

  /** The two together: conditions on the chains alone, conclusions about the used ring
      and guest memory. */
  lemma BatchAnswered(p: Progress, jobs: seq<Job>, eventIdx: bool)
    requires !p.panicked && Apart(jobs)
    requires forall i :: 0 <= i < |jobs| ==> Welcome(p.mem, jobs[i]) && jobs[i].ringOk
    ensures var end := ServeJobs(p, jobs, eventIdx);
      && !end.panicked && OnlyReplies(p.mem, end.mem, jobs)
      && |end.used| == |p.used| + |jobs| && end.used[..|p.used|] == p.used
      && forall i :: 0 <= i < |jobs| ==> Reported(p.mem, end.mem, jobs[i], end.used[|p.used| + i])
  {
    hide Welcome, ServeJobs, Reported, OnlyReplies, Apart;
    BatchServed(p, jobs, eventIdx);
    BatchReported(p, jobs, eventIdx);
    BatchFrame(p, jobs, eventIdx);
  }

  // ---- how often the driver is told ---------------------------------------

  /** The jobs whose chain has to be announced. */
  function Loud(jobs: seq<Job>, eventIdx: bool): set<nat> {
    set i: nat | i < |jobs| && !Quiet(jobs[i], eventIdx)
  }

  lemma LoudNext(jobs: seq<Job>, eventIdx: bool)
    requires jobs != []
    ensures var n := |jobs| - 1;
      |Loud(jobs, eventIdx)| == |Loud(jobs[..n], eventIdx)| + if Quiet(jobs[n], eventIdx) then 0 else 1
  {
    var n := |jobs| - 1;
    var before := Loud(jobs[..n], eventIdx);
    assert Loud(jobs, eventIdx) == if Quiet(jobs[n], eventIdx) then before else before + {n};
  }

  /** A drained batch raises one signal for every chain that is not to be kept quiet. */
  lemma {:induction false} BatchSignals(p: Progress, jobs: seq<Job>, eventIdx: bool)
    requires !ServeJobs(p, jobs, eventIdx).panicked
    ensures ServeJobs(p, jobs, eventIdx).signals == p.signals + |Loud(jobs, eventIdx)|
    decreases |jobs|
  {
    hide ServeOne, Quiet;
    if jobs == [] {
      assert Loud(jobs, eventIdx) == {};
    } else {
      var n := |jobs| - 1;
      LivePrefix(p, jobs, eventIdx);
      BatchSignals(p, jobs[..n], eventIdx);
      var before := ServeJobs(p, jobs[..n], eventIdx);
      SignalExactly(before, jobs[n], eventIdx);
      LoudNext(jobs, eventIdx);
    }
  }

  /** No wake-up is lost: without event indices every chain is announced; with them, a
      batch goes unannounced only if the driver wanted silence for every chain of it. */
  lemma BatchAnnounced(p: Progress, jobs: seq<Job>, eventIdx: bool)
    requires !ServeJobs(p, jobs, eventIdx).panicked
    ensures var told := ServeJobs(p, jobs, eventIdx).signals - p.signals;
      && (!eventIdx ==> told == |jobs|)
      && (told == 0 <==> forall i :: 0 <= i < |jobs| ==> Quiet(jobs[i], eventIdx))
  {
    hide ServeJobs;
    BatchSignals(p, jobs, eventIdx);
    var loud := Loud(jobs, eventIdx);
    if !eventIdx {
      AllLoud(jobs);
    }
    if forall i :: 0 <= i < |jobs| ==> Quiet(jobs[i], eventIdx) {
      assert loud == {};
    } else {
      var i :| 0 <= i < |jobs| && !Quiet(jobs[i], eventIdx);
      assert i in loud;
    }
  }

  lemma {:induction false} AllLoud(jobs: seq<Job>)
    ensures |Loud(jobs, false)| == |jobs|
    decreases |jobs|
  {
    if jobs == [] {
      assert Loud(jobs, false) == {};
    } else {
      AllLoud(jobs[..|jobs| - 1]);
      LoudNext(jobs, false);
    }
  }

  // ---- the batches of the notification protocol ---------------------------

  /** The device steps that serve a batch of the ring. */
  function ServingSteps(jobs: seq<Job>): (steps: seq<Queue.Step>)
    ensures |steps| == |jobs|
  {
    seq(|jobs|, i requires 0 <= i < |jobs| => Queue.Device(true, jobs[i].ringOk))
  }

  /** What the ring records for the jobs of a batch. */
  function Marks(jobs: seq<Job>): (marks: seq<(nat, bool)>)
    ensures |marks| == |jobs|
  {
    seq(|jobs|, i requires 0 <= i < |jobs| => (jobs[i].chain.head, jobs[i].ringOk))
  }

  function HeadsOf(used: seq<UsedElem>): (r: seq<nat>)
    ensures |r| == |used|
  {
    seq(|used|, i requires 0 <= i < |used| => used[i].head)
  }

  /** The protocol's serving steps for a batch take it off the ring, in order. */
  lemma {:induction false} RingServes(s: Queue.Ring, jobs: seq<Job>)
    requires s.pc == Queue.Serving && |jobs| == |s.batch|
    requires forall i :: 0 <= i < |jobs| ==> jobs[i].chain.head == s.batch[i]
    ensures Queue.Execute(s, ServingSteps(jobs)) == s.(batch := [], used := s.used + Marks(jobs))
    decreases |jobs|
  {
    if jobs == [] {
      assert s.used + [] == s.used;
    } else {
      var s' := Queue.Next(s, ServingSteps(jobs)[0]);
      assert ServingSteps(jobs)[1..] == ServingSteps(jobs[1..]);
      RingServes(s', jobs[1..]);
      assert s'.used + Marks(jobs[1..]) == s.used + Marks(jobs);
    }
  }

  /** The entries the drain loop files are those the protocol counts as returned. */
  lemma {:induction false} LoopReturns(p: Progress, jobs: seq<Job>, eventIdx: bool)
    requires !ServeJobs(p, jobs, eventIdx).panicked
    ensures HeadsOf(ServeJobs(p, jobs, eventIdx).used) == HeadsOf(p.used) + Queue.Returned(Marks(jobs))
    decreases |jobs|
  {
    hide ServeOne;
    if jobs == [] {
      assert HeadsOf(p.used) + [] == HeadsOf(p.used);
    } else {
      var n := |jobs| - 1;
      LivePrefix(p, jobs, eventIdx);
      LoopReturns(p, jobs[..n], eventIdx);
      var before := ServeJobs(p, jobs[..n], eventIdx);
      ServedHead(before, jobs[n], eventIdx);
      assert Marks(jobs)[..n] == Marks(jobs[..n]);
      var mine := if jobs[n].ringOk then [jobs[n].chain.head] else [];
      assert HeadsOf(ServeJobs(p, jobs, eventIdx).used) == HeadsOf(before.used) + mine;
      assert Queue.Returned(Marks(jobs)) == Queue.Returned(Marks(jobs[..n])) + mine;
    }
  }

  lemma ServedHead(p: Progress, job: Job, eventIdx: bool)
    requires !ServeOne(p, job, eventIdx).panicked
    ensures HeadsOf(ServeOne(p, job, eventIdx).used) ==
              HeadsOf(p.used) + (if job.ringOk then [job.chain.head] else [])
  {
    hide Serve;
  }

  /** Protocol and drain loop agree on a batch: in every reachable ring with a batch to
      serve, the loop hands back exactly the chains the protocol then counts as
      returned, in order, and the protocol has none of the batch left. */
  lemma BatchOfRing(eventIdx: bool, kick: bool, history: seq<Queue.Step>, p: Progress, jobs: seq<Job>)
    requires var s := Queue.Execute(Queue.Start(eventIdx, kick), history);
      && s.pc == Queue.Serving && |jobs| == |s.batch|
      && forall i :: 0 <= i < |jobs| ==> jobs[i].chain.head == s.batch[i]
    requires !ServeJobs(p, jobs, eventIdx).panicked
    ensures var s := Queue.Execute(Queue.Start(eventIdx, kick), history);
            var s' := Queue.Execute(s, ServingSteps(jobs));
      && s'.batch == [] && s'.added == Queue.Heads(s'.used) + s'.avail
      && s'.used == s.used + Marks(jobs)
      && HeadsOf(ServeJobs(p, jobs, eventIdx).used) == HeadsOf(p.used) + Queue.Returned(Marks(jobs))
  {
    hide ServeJobs, ServingSteps, Marks, Queue.Returned;
    var s := Queue.Execute(Queue.Start(eventIdx, kick), history);
    assert Queue.Inv(Queue.Start(eventIdx, kick));
    Queue.ExecuteInv(Queue.Start(eventIdx, kick), history);
    RingServes(s, jobs);
    Queue.ExecuteInv(s, ServingSteps(jobs));
    LoopReturns(p, jobs, eventIdx);
    var s' := Queue.Execute(s, ServingSteps(jobs));
    assert Queue.Heads(s'.used) + [] + s'.avail == Queue.Heads(s'.used) + s'.avail;
  }
}
