/** Writers over arbitrary runs of messages: what a path's writer holds is determined
    by the accepted messages alone, as if every accepted write were a `pwrite`. */
module Sessions {
  import opened GuestMemory
  import opened Chain
  import opened Messages
  import opened Requests
  import opened FsModel
  import opened Inodes

  // ---- the reference: random-access writing -------------------------------

  datatype WriteRec = WriteRec(offset: nat, data: Bytes)

  /** POSIX pwrite: zero-fill up to the offset, then overlay the data. */
  function Pwrite(content: Bytes, w: WriteRec): Bytes {
    var padded := if w.offset <= |content| then content else content + Zeros(w.offset - |content|);
    var end := w.offset + |w.data|;
    padded[..w.offset] + w.data + (if end < |padded| then padded[end..] else [])
  }

  function PwriteAll(content: Bytes, ws: seq<WriteRec>): Bytes {
    if ws == [] then content else Pwrite(PwriteAll(content, ws[..|ws| - 1]), ws[|ws| - 1])
  }

  function Concat(ws: seq<WriteRec>): Bytes {
    if ws == [] then [] else Concat(ws[..|ws| - 1]) + ws[|ws| - 1].data
  }

  /** Each interval starts where the previous one ended: no gap, no overlap. */
  ghost predicate Tiled(start: nat, ws: seq<WriteRec>) {
    forall i :: 0 <= i < |ws| ==> ws[i].offset == start + |Concat(ws[..i])|
  }

  lemma TiledOne(start: nat, ws: seq<WriteRec>, w: WriteRec)
    requires Tiled(start, ws) && w.offset == start + |Concat(ws)|
    ensures Tiled(start, ws + [w])
    ensures Concat(ws + [w]) == Concat(ws) + w.data
    ensures forall base: Bytes :: |base| == start ==>
              PwriteAll(base, ws + [w]) == Pwrite(PwriteAll(base, ws), w)
  {
    var vs := ws + [w];
    assert vs[..|vs| - 1] == ws;
    forall i | 0 <= i < |vs| ensures vs[i].offset == start + |Concat(vs[..i])| {
      assert vs[..i] == ws[..i];
    }
  }

  lemma PwriteAtEnd(content: Bytes, w: WriteRec)
    requires w.offset == |content|
    ensures Pwrite(content, w) == content + w.data
  {
  }

  lemma TiledPrefix(start: nat, ws: seq<WriteRec>, n: nat)
    requires Tiled(start, ws) && n <= |ws|
    ensures Tiled(start, ws[..n])
  {
    forall i | 0 <= i < n ensures ws[..n][i].offset == start + |Concat(ws[..n][..i])| {
      assert ws[..n][..i] == ws[..i];
    }
  }

  /** Tiled writes make pwrite coincide with appending. */
  lemma {:induction false} TiledAppends(base: Bytes, ws: seq<WriteRec>)
    requires Tiled(|base|, ws)
    ensures PwriteAll(base, ws) == base + Concat(ws)
  {
    if ws != [] {
      hide Pwrite;
      var n := |ws| - 1;
      var done := Concat(ws[..n]);
      TiledPrefix(|base|, ws, n);
      TiledAppends(base, ws[..n]);
      PwriteAtEnd(base + done, ws[n]);
      assert base + done + ws[n].data == base + (done + ws[n].data);
    }
  }

  /** Tiled intervals neither overlap nor leave a gap. */
  lemma {:induction false} TiledCovers(start: nat, ws: seq<WriteRec>, i: nat, j: nat)
    requires Tiled(start, ws) && i < j < |ws|
    ensures ws[i].offset + |ws[i].data| <= ws[j].offset
    ensures j == i + 1 ==> ws[i].offset + |ws[i].data| == ws[j].offset
    ensures ws[0].offset == start
  {
    assert ws[..0] == [];
    assert ws[..i + 1][..i] == ws[..i];
    if i + 1 < j {
      assert ws[..j][..j - 1] == ws[..j - 1];
      TiledCovers(start, ws, i, j - 1);
    }
  }

  // ---- what the guest can observe -----------------------------------------

  /** A writing session on one path: what it started from and what was accepted. */
  datatype Session = Session(base: Bytes, writes: seq<WriteRec>)

  datatype Act =
    | Opened(base: Bytes)
    | Wrote(rec: WriteRec)
    | Closed
    | Other

  /** What a message does to path p's writer, read off the request and the reply. */
  function Observe(st: State, e: Event, p: Path): Act {
    match PathOf(st, e.msg.nodeid)
    case None => Other
    case Some(q) =>
      if !AnswerTo(st, e).Reply? then Other
      else
        match e.msg.op
        case Open(flags) =>
          if q == p && IsWrite(flags) then Opened(BaseOf(st, p, flags)) else Other
        case Create(flags, name) =>
          if Join(q, name) == p && IsWrite(flags) then Opened(BaseOf(st, p, flags)) else Other
        case Write(offset, _, data) => if q == p then Wrote(WriteRec(offset, data)) else Other
        case Release => if q == p then Closed else Other
        case _ => Other
  }

  function BaseOf(st: State, p: Path, flags: nat): Bytes {
    if IsAppend(flags) && st.norm(p) in st.objects then st.objects[st.norm(p)] else []
  }

  function Advanced(cur: Option<Session>, act: Act): Option<Session> {
    match act
    case Opened(base) => Some(Session(base, []))
    case Wrote(rec) => if cur.Some? then Some(Session(cur.value.base, cur.value.writes + [rec])) else None
    case Closed => None
    case Other => cur
  }

  /** The session on p after a run, computed from requests and replies only. */
  function Track(st: State, es: seq<Event>, p: Path, cur: Option<Session>): Option<Session>
    decreases |es|
  {
    if es == [] then cur
    else Track(After(st, es[0]), es[1..], p, Advanced(cur, Observe(st, es[0], p)))
  }

  // ---- the writer map refines the session ---------------------------------

  ghost predicate Holds(st: State, p: Path, cur: Option<Session>) {
    if p in st.writers then
      && cur.Some?
      && var w, s := st.writers[p], cur.value;
         && w.base == s.base && Tiled(|s.base|, s.writes)
         && w.data == Concat(s.writes) && w.written == |s.base| + |w.data|
    else cur.None?
  }

  /** Only opening, writing and releasing can change writers; the first two only that
      of the path concerned. */
  lemma TableOpsKeepWriters(st: State, op: Op, env: Env, q: Path, room: nat)
    requires NeedsNode(op) && !op.Create? && !op.Open? && !op.Write? && !op.Release?
    ensures OnNode(st, op, env, q, room).0.writers == st.writers
  {
    if op.Readdir? && env.listing.Some? {
      ListingFrame(st, q, env.listing.value, 0);
    }
  }

  lemma SetWriterHolds(st: State, env: Env, q: Path, flags: nat, p: Path, cur: Option<Session>)
    requires Holds(st, p, cur)
    ensures var (st', ok) := SetWriter(st, env, q, flags);
      Holds(st', p, if ok && q == p && IsWrite(flags) then Some(Session(BaseOf(st, p, flags), [])) else cur)
  {
    assert Concat([]) == [];
  }

  lemma WriteHolds(st: State, env: Env, q: Path, offset: nat, data: Bytes, p: Path, cur: Option<Session>)
    requires Holds(st, p, cur)
    ensures var (st', ok) := WritePath(st, env, q, offset, data);
      && Holds(st', p, if ok && q == p then Advanced(cur, Wrote(WriteRec(offset, data))) else cur)
      && (!ok ==> st' == st)
  {
    if q == p && p in st.writers && offset == st.writers[p].written {
      TiledOne(|cur.value.base|, cur.value.writes, WriteRec(offset, data));
    }
  }

  lemma CreateHolds(st: State, env: Env, q: Path, flags: nat, p: Path, cur: Option<Session>)
    requires Holds(st, p, cur)
    ensures var (st', ans) := CreateOp(st, env, q, flags);
      Holds(st', p, if ans.Reply? && q == p && IsWrite(flags) then Some(Session(BaseOf(st, p, flags), [])) else cur)
  {
    var st1 := Insert(st, q, Attr(0, 0, false));
    assert Holds(st1, p, cur);
    SetWriterHolds(st1, env, q, flags, p, cur);
    assert BaseOf(st1, p, flags) == BaseOf(st, p, flags);
  }

  lemma ReleaseHolds(st: State, env: Env, q: Path, p: Path, cur: Option<Session>)
    requires Holds(st, p, cur)
    ensures var (st', ok) := ReleaseWriter(st, env, q);
      Holds(st', p, if ok && q == p then None else cur)
  {
  }

  lemma OpenStepHolds(st: State, e: Event, p: Path, cur: Option<Session>)
    requires Holds(st, p, cur) && e.msg.op.Open? && PathOf(st, e.msg.nodeid).Some?
    ensures Holds(After(st, e), p, Advanced(cur, Observe(st, e, p)))
  {
    var op, q := e.msg.op, PathOf(st, e.msg.nodeid).value;
    SetWriterHolds(st, e.env, q, op.flags, p, cur);
    hide SetWriter;
    hide Holds;
  }

  lemma CreateStepHolds(st: State, e: Event, p: Path, cur: Option<Session>)
    requires Holds(st, p, cur) && e.msg.op.Create? && PathOf(st, e.msg.nodeid).Some?
    ensures Holds(After(st, e), p, Advanced(cur, Observe(st, e, p)))
  {
    var op, q := e.msg.op, PathOf(st, e.msg.nodeid).value;
    CreateHolds(st, e.env, Join(q, op.name), op.flags, p, cur);
    hide CreateOp;
    hide Holds;
  }

  lemma WriteStepHolds(st: State, e: Event, p: Path, cur: Option<Session>)
    requires Holds(st, p, cur) && e.msg.op.Write? && PathOf(st, e.msg.nodeid).Some?
    ensures Holds(After(st, e), p, Advanced(cur, Observe(st, e, p)))
  {
    var op, q := e.msg.op, PathOf(st, e.msg.nodeid).value;
    WriteHolds(st, e.env, q, op.offset, op.data, p, cur);
    hide WritePath;
    hide Holds;
  }

  lemma ReleaseStepHolds(st: State, e: Event, p: Path, cur: Option<Session>)
    requires Holds(st, p, cur) && e.msg.op.Release? && PathOf(st, e.msg.nodeid).Some?
    ensures Holds(After(st, e), p, Advanced(cur, Observe(st, e, p)))
  {
    var op, q := e.msg.op, PathOf(st, e.msg.nodeid).value;
    ReleaseHolds(st, e.env, q, p, cur);
    hide ReleaseWriter;
    hide Holds;
  }

  /** Any other message leaves the session and all writers as they are. */
  lemma OtherStepHolds(st: State, e: Event, p: Path, cur: Option<Session>)
    requires Holds(st, p, cur)
    requires PathOf(st, e.msg.nodeid).Some? ==>
               !e.msg.op.Open? && !e.msg.op.Create? && !e.msg.op.Write? && !e.msg.op.Release?
    ensures Holds(After(st, e), p, Advanced(cur, Observe(st, e, p)))
  {
    if NeedsNode(e.msg.op) && PathOf(st, e.msg.nodeid).Some? {
      TableOpsKeepWriters(st, e.msg.op, e.env, PathOf(st, e.msg.nodeid).value, e.room);
    }
    hide OnNode;
    assert After(st, e).writers == st.writers;
    assert Observe(st, e, p) == Other;
  }

  /** One message keeps the writer of p in step with the session on p. */
  lemma StepHolds(st: State, e: Event, p: Path, cur: Option<Session>)
    requires Holds(st, p, cur)
    ensures Holds(After(st, e), p, Advanced(cur, Observe(st, e, p)))
  {
    hide Holds;
    hide After;
    hide Observe;
    if PathOf(st, e.msg.nodeid).None? {
      OtherStepHolds(st, e, p, cur);
    } else {
      match e.msg.op
      case Open(_) => OpenStepHolds(st, e, p, cur);
      case Create(_, _) => CreateStepHolds(st, e, p, cur);
      case Write(_, _, _) => WriteStepHolds(st, e, p, cur);
      case Release => ReleaseStepHolds(st, e, p, cur);
      case _ => OtherStepHolds(st, e, p, cur);
    }
  }

  /** Over every run: the pending content of p's writer is the fold of pwrite over the
      accepted writes of the current session, which tile [base, written); there is a
      writer exactly while a session is open. */
  lemma {:induction false} RunHolds(st: State, es: seq<Event>, p: Path, cur: Option<Session>)
    requires Holds(st, p, cur)
    ensures Holds(Run(st, es), p, Track(st, es, p, cur))
    decreases |es|
  {
    if es != [] {
      StepHolds(st, es[0], p, cur);
      RunHolds(After(st, es[0]), es[1..], p, Advanced(cur, Observe(st, es[0], p)));
    }
  }

  lemma WriterRefinesPwrite(norm: Path -> Path, objects: map<Path, Bytes>, es: seq<Event>, p: Path)
    ensures var st0 := Empty(norm, objects);
            var end, s := Run(st0, es), Track(st0, es, p, None);
      && (p in end.writers <==> s.Some?)
      && (s.Some? ==>
            var w := end.writers[p];
            && w.base + w.data == PwriteAll(s.value.base, s.value.writes)
            && Tiled(|s.value.base|, s.value.writes)
            && w.written == |PwriteAll(s.value.base, s.value.writes)|)
  {
    var st0 := Empty(norm, objects);
    RunHolds(st0, es, p, None);
    var s := Track(st0, es, p, None);
    if s.Some? {
      TiledAppends(s.value.base, s.value.writes);
    }
  }

  /** A write is accepted exactly when the session is open, its offset is the end of
      what the session has, and the backend takes it; otherwise nothing changes. */
  lemma WriteAccepted(st: State, e: Event, p: Path, cur: Option<Session>)
    requires Holds(st, p, cur) && e.msg.op.Write? && PathOf(st, e.msg.nodeid) == Some(p)
    ensures AnswerTo(st, e).Reply? <==>
              && cur.Some? && e.env.writeOk
              && e.msg.op.offset == |PwriteAll(cur.value.base, cur.value.writes)|
    ensures !AnswerTo(st, e).Reply? ==> AnswerTo(st, e) == Errno(EIO) && After(st, e) == st
  {
    if cur.Some? {
      TiledAppends(cur.value.base, cur.value.writes);
    }
  }

  // ---- release ------------------------------------------------------------

  /** A release is accepted exactly when a session is open and the backend closes it;
      it then commits the session and nothing else, and ends it. */
  lemma ReleaseCommits(st: State, e: Event, p: Path, cur: Option<Session>)
    requires Holds(st, p, cur) && e.msg.op.Release? && PathOf(st, e.msg.nodeid) == Some(p)
    ensures AnswerTo(st, e) == Reply(NoBody) <==> cur.Some? && e.env.closeOk
    ensures AnswerTo(st, e) == Reply(NoBody) ==>
              && After(st, e).objects ==
                   st.objects[st.norm(p) := PwriteAll(cur.value.base, cur.value.writes)]
              && Holds(After(st, e), p, None)
    ensures AnswerTo(st, e) != Reply(NoBody) ==> AnswerTo(st, e) == Errno(EIO) && After(st, e) == st
  {
    if cur.Some? {
      TiledAppends(cur.value.base, cur.value.writes);
    }
  }

  predicate NoOpening(st: State, es: seq<Event>, p: Path)
    decreases |es|
  {
    es == [] || (!Observe(st, es[0], p).Opened? && NoOpening(After(st, es[0]), es[1..], p))
  }

  lemma {:induction false} NoSessionWithoutOpening(st: State, es: seq<Event>, p: Path)
    requires Holds(st, p, None) && NoOpening(st, es, p)
    ensures Holds(Run(st, es), p, None)
    decreases |es|
  {
    if es != [] {
      StepHolds(st, es[0], p, None);
      NoSessionWithoutOpening(After(st, es[0]), es[1..], p);
    }
  }

  /** A second release fails, whatever happens in between, unless a writing open or
      create of that path succeeded. */
  lemma SecondReleaseFails(st: State, first: Event, es: seq<Event>, second: Event, p: Path, cur: Option<Session>)
    requires Holds(st, p, cur)
    requires first.msg.op.Release? && PathOf(st, first.msg.nodeid) == Some(p)
    requires AnswerTo(st, first).Reply? && NoOpening(After(st, first), es, p)
    requires second.msg.op.Release?
    requires PathOf(Run(After(st, first), es), second.msg.nodeid) == Some(p)
    ensures AnswerTo(Run(After(st, first), es), second) == Errno(EIO)
  {
    ReleaseCommits(st, first, p, cur);
    NoSessionWithoutOpening(After(st, first), es, p);
  }

  /** A message that is not an accepted open, write or release of p leaves p's writer
      exactly as it was. */
  lemma OthersKeepWriter(st: State, e: Event, p: Path)
    requires Observe(st, e, p) == Other
    ensures p in After(st, e).writers <==> p in st.writers
    ensures p in st.writers ==> After(st, e).writers[p] == st.writers[p]
  {
    var op, env := e.msg.op, e.env;
    if NeedsNode(op) && PathOf(st, e.msg.nodeid).Some? {
      var q := PathOf(st, e.msg.nodeid).value;
      if !op.Create? && !op.Open? && !op.Write? && !op.Release? {
        TableOpsKeepWriters(st, op, env, q, e.room);
      }
    }
  }

  // ---- from writing to reading back ---------------------------------------

  /** The message is an accepted release, unlink or rmdir of a path naming object k. */
  predicate ChangesObject(st: State, e: Event, k: Path) {
    match PathOf(st, e.msg.nodeid)
    case None => false
    case Some(q) =>
      && AnswerTo(st, e).Reply?
      && match e.msg.op
         case Release => st.norm(q) == k
         case Unlink(name) => st.norm(Join(q, name)) == k
         case Rmdir(name) => st.norm(Join(q, name)) == k
         case _ => false
  }

  predicate ObjectLeftAlone(st: State, es: seq<Event>, k: Path)
    decreases |es|
  {
    es == [] || (!ChangesObject(st, es[0], k) && ObjectLeftAlone(After(st, es[0]), es[1..], k))
  }

  /** The frames of everything a message can call. */
  lemma FramesOf(st: State, op: Op, env: Env, q: Path)
    ensures (op.Getattr? || op.Setattr?) ==>
              OnlyTable(st, GetMetadata(st, env, q).0) && GetMetadata(st, env, q).0.norm == st.norm
    ensures op.Lookup? ==>
              var r := GetMetadata(st, env, Join(q, op.name)).0;
              OnlyTable(st, r) && r.norm == st.norm
    ensures op.Open? ==>
              SetWriter(st, env, q, op.flags).0 == st.(writers := SetWriter(st, env, q, op.flags).0.writers)
    ensures op.Create? ==>
              var st1 := Insert(st, Join(q, op.name), Attr(0, 0, false));
              var r := SetWriter(st1, env, Join(q, op.name), op.flags).0;
              r == st1.(writers := r.writers)
    ensures op.Readdir? && env.listing.Some? ==>
              var r := ListEntries(st, q, env.listing.value, 0).0;
              OnlyTable(st, r) && r.norm == st.norm
  {
    hide GetMetadata, SetWriter, ListEntries, Join;
    match op
    case Getattr => GetMetadataFrame(st, env, q);
    case Setattr => GetMetadataFrame(st, env, q);
    case Lookup(name) => GetMetadataFrame(st, env, Join(q, name));
    case Open(flags) => SetWriterFrame(st, env, q, flags);
    case Create(flags, name) =>
      SetWriterFrame(Insert(st, Join(q, name), Attr(0, 0, false)), env, Join(q, name), flags);
    case Readdir(_) =>
      if env.listing.Some? {
        ListingFrame(st, q, env.listing.value, 0);
      }
    case _ =>
  }

  lemma StepKeepsObject(st: State, e: Event, k: Path)
    requires k in st.objects && !ChangesObject(st, e, k)
    ensures k in After(st, e).objects && After(st, e).objects[k] == st.objects[k]
  {
    hide GetMetadata, SetWriter, ListEntries, Join;
    if PathOf(st, e.msg.nodeid).Some? {
      FramesOf(st, e.msg.op, e.env, PathOf(st, e.msg.nodeid).value);
    }
  }

  lemma StepKeepsNorm(st: State, e: Event)
    ensures After(st, e).norm == st.norm
  {
    hide GetMetadata, SetWriter, ListEntries, Join;
    if PathOf(st, e.msg.nodeid).Some? {
      FramesOf(st, e.msg.op, e.env, PathOf(st, e.msg.nodeid).value);
    }
  }

  lemma {:induction false} RunKeepsObject(st: State, es: seq<Event>, k: Path)
    requires k in st.objects && ObjectLeftAlone(st, es, k)
    ensures k in Run(st, es).objects && Run(st, es).objects[k] == st.objects[k]
    ensures Run(st, es).norm == st.norm
    decreases |es|
  {
    if es != [] {
      StepKeepsObject(st, es[0], k);
      StepKeepsNorm(st, es[0]);
      RunKeepsObject(After(st, es[0]), es[1..], k);
    }
  }

  /** The accepted writes to p during a run in which p's session is neither reopened
      nor released. */
  function Accepted(st: State, es: seq<Event>, p: Path): seq<WriteRec>
    decreases |es|
  {
    if es == [] then []
    else
      var act := Observe(st, es[0], p);
      (if act.Wrote? then [act.rec] else []) + Accepted(After(st, es[0]), es[1..], p)
  }

  predicate SessionStaysOpen(st: State, es: seq<Event>, p: Path)
    decreases |es|
  {
    es == [] || (!Observe(st, es[0], p).Opened? && !Observe(st, es[0], p).Closed?
                 && SessionStaysOpen(After(st, es[0]), es[1..], p))
  }

  lemma {:induction false} TrackAccepted(st: State, es: seq<Event>, p: Path, s: Session)
    requires SessionStaysOpen(st, es, p)
    ensures Track(st, es, p, Some(s)) == Some(Session(s.base, s.writes + Accepted(st, es, p)))
    decreases |es|
  {
    if es == [] {
      assert s.writes + [] == s.writes;
    } else {
      var act := Observe(st, es[0], p);
      var s' := Advanced(Some(s), act).value;
      TrackAccepted(After(st, es[0]), es[1..], p, s');
      assert s'.writes + Accepted(After(st, es[0]), es[1..], p) == s.writes + Accepted(st, es, p);
    }
  }

  /** Write, then release: after a writing open of p, any run that leaves the session
      open, an accepted release, and any run that leaves the object alone, the object
      holds the base followed by the accepted data -- whatever else the runs did to
      other paths -- which is what random-access writing would have produced. */
  lemma CommittedContent(st: State, open: Event, es: seq<Event>, release: Event,
                         fs: seq<Event>, p: Path, cur: Option<Session>)
    requires Holds(st, p, cur) && Observe(st, open, p).Opened?
    requires var st1 := After(st, open);
             var st2 := Run(st1, es);
             var st3 := After(st2, release);
      && SessionStaysOpen(st1, es, p)
      && Observe(st2, release, p).Closed?
      && ObjectLeftAlone(st3, fs, st3.norm(p))
    ensures var st1 := After(st, open);
            var st4 := Run(After(Run(st1, es), release), fs);
            var ws := Accepted(st1, es, p);
            var content := Observe(st, open, p).base + Concat(ws);
      && content == PwriteAll(Observe(st, open, p).base, ws)
      && st4.norm(p) in st4.objects && st4.objects[st4.norm(p)] == content
  {
    var base := Observe(st, open, p).base;
    StepHolds(st, open, p, cur);
    var st1 := After(st, open);
    RunHolds(st1, es, p, Some(Session(base, [])));
    TrackAccepted(st1, es, p, Session(base, []));
    var st2 := Run(st1, es);
    var ws := Accepted(st1, es, p);
    assert [] + ws == ws;
    assert Holds(st2, p, Some(Session(base, ws)));
    TiledAppends(base, ws);
    ReleaseCommits(st2, release, p, Some(Session(base, ws)));
    StepKeepsNorm(st2, release);
    var st3 := After(st2, release);
    RunKeepsObject(st3, fs, st3.norm(p));
  }

  /** A concrete session: init, create, a write, one at a wrong offset, another write,
      release, read and a second release. */
  lemma SessionExample(norm: Path -> Path)
    ensures var ok := Env(true, true, true, false, 0, true, true, true, true, true, true, true, None);
            var s1 := After(Empty(norm, map[]), Ask(1, 0, Init(7, 38), ok));
            var s2 := After(s1, Ask(2, 1, Create(O_WRONLY, [97]), ok));
            var s3 := After(s2, Ask(3, 2, Write(0, 2, [10, 11]), ok));
            var s4 := After(s3, Ask(4, 2, Write(0, 1, [99]), ok));
            var s5 := After(s4, Ask(5, 2, Write(2, 1, [12]), ok));
            var s6 := After(s5, Ask(6, 2, Release, ok));
      && AnswerTo(s3, Ask(4, 2, Write(0, 1, [99]), ok)) == Errno(EIO) && s4 == s3
      && AnswerTo(s6, Ask(7, 2, Read(1), ok)) == Data([11, 12])
      && AnswerTo(s6, Ask(8, 2, Release, ok)) == Errno(EIO)
  {
    var ok := Env(true, true, true, false, 0, true, true, true, true, true, true, true, None);
    var name: Bytes := [97];
    var s1 := After(Empty(norm, map[]), Ask(1, 0, Init(7, 38), ok));
    var p := Join(ROOT, name);
    assert |s1.slab| == 2 && PathOf(s1, 1) == Some(ROOT) && s1.norm == norm;
    var s2 := After(s1, Ask(2, 1, Create(O_WRONLY, name), ok));
    assert s2 == CreateOp(s1, ok, p, O_WRONLY).0;
    assert PathOf(s2, 2) == Some(p);
    assert s2.writers == s1.writers[p := InnerWriter([], [], 0)];
    assert s2.norm == norm;
    Follow(s2, ok, p);
  }

  /** The rest of the example, from any state with a fresh writer on slot 2. */
  lemma Follow(s2: State, ok: Env, p: Path)
    requires ok.writeOk && ok.closeOk && ok.readOk
    requires PathOf(s2, 2) == Some(p) && p in s2.writers && s2.writers[p] == InnerWriter([], [], 0)
    ensures var s3 := After(s2, Ask(3, 2, Write(0, 2, [10, 11]), ok));
            var s4 := After(s3, Ask(4, 2, Write(0, 1, [99]), ok));
            var s5 := After(s4, Ask(5, 2, Write(2, 1, [12]), ok));
            var s6 := After(s5, Ask(6, 2, Release, ok));
      && AnswerTo(s3, Ask(4, 2, Write(0, 1, [99]), ok)) == Errno(EIO) && s4 == s3
      && AnswerTo(s6, Ask(7, 2, Read(1), ok)) == Data([11, 12])
      && AnswerTo(s6, Ask(8, 2, Release, ok)) == Errno(EIO)
  {
    hide After;
    hide AnswerTo;
    var d, e, f: Bytes := [10, 11], [99], [12];
    var s3 := After(s2, Ask(3, 2, Write(0, 2, d), ok));
    WriteStep(s2, Ask(3, 2, Write(0, 2, d), ok), p);
    var s4 := After(s3, Ask(4, 2, Write(0, 1, e), ok));
    WriteStep(s3, Ask(4, 2, Write(0, 1, e), ok), p);
    assert s4 == s3;
    var s5 := After(s4, Ask(5, 2, Write(2, 1, f), ok));
    WriteStep(s4, Ask(5, 2, Write(2, 1, f), ok), p);
    var whole: Bytes := [10, 11, 12];
    assert [] + ([] + d + f) == whole;
    var s6 := After(s5, Ask(6, 2, Release, ok));
    ReleaseStep(s5, Ask(6, 2, Release, ok), p);
    assert s6.objects == s5.objects[s5.norm(p) := whole] && p !in s6.writers && PathOf(s6, 2) == Some(p);
    ReadStep(s6, Ask(7, 2, Read(1), ok), p);
    assert whole[1..] == [11, 12];
    ReleaseStep(s6, Ask(8, 2, Release, ok), p);
  }

  lemma WriteStep(st: State, e: Event, p: Path)
    requires e.msg.op.Write? && PathOf(st, e.msg.nodeid) == Some(p)
    ensures (After(st, e), AnswerTo(st, e)) ==
              WriteOp(st, e.env, p, e.msg.op.offset, e.msg.op.size, e.msg.op.data)
  {
  }

  lemma ReleaseStep(st: State, e: Event, p: Path)
    requires e.msg.op.Release? && PathOf(st, e.msg.nodeid) == Some(p)
    ensures (After(st, e), AnswerTo(st, e)) == ReleaseOp(st, e.env, p)
  {
  }

  lemma ReadStep(st: State, e: Event, p: Path)
    requires e.msg.op.Read? && PathOf(st, e.msg.nodeid) == Some(p)
    ensures (After(st, e), AnswerTo(st, e)) == ReadOp(st, e.env, p, e.msg.op.offset)
  {
  }
}
