/** When each operation succeeds, what it then changes and answers, how it fails
    otherwise, and what that means for the messages that follow. */
module Outcomes {
  import opened GuestMemory
  import opened Chain
  import opened Messages
  import opened Requests
  import opened FsModel
  import opened Inodes
  import opened Sessions

  // ---- lookup, getattr, setattr -------------------------------------------

  /** The backend knows p: as a directory, or as a file that it holds. */
  predicate Exists(st: State, env: Env, p: Path) {
    env.statOk && (env.isDir || st.norm(p) in st.objects)
  }

  /** The path a lookup, getattr or setattr is about. */
  function Target(dir: Path, op: Op): Path { if op.Lookup? then Join(dir, op.name) else dir }

  /** lookup, getattr and setattr succeed exactly when the backend knows the path, and
      then report its size and type and the inode the map has for it, filing the path
      if it was not filed; otherwise ENOENT, and nothing changes. */
  lemma MetadataExactly(st: State, e: Event, dir: Path)
    requires PathOf(st, e.msg.nodeid) == Some(dir)
    requires e.msg.op.Lookup? || e.msg.op.Getattr? || e.msg.op.Setattr?
    ensures var p, st', ans := Target(dir, e.msg.op), After(st, e), AnswerTo(st, e);
      && (ans.Reply? <==> Exists(st, e.env, p))
      && (!ans.Reply? ==> ans == Errno(ENOENT) && st' == st)
      && (ans.Reply? ==>
            && (if e.msg.op.Lookup? then ans.body.EntryBody? else ans.body.AttrBody?)
            && ans.body.attr.isDir == e.env.isDir
            && ans.body.attr.size == (if e.env.isDir then e.env.dirSize else |st.objects[st.norm(p)]|)
            && p in st'.inodes && ans.body.attr.ino == st'.inodes[p]
            && st'.objects == st.objects && st'.writers == st.writers
            && (p in st.inodes ==> st' == st)
            && (p !in st.inodes ==>
                  && st'.inodes == st.inodes[p := |st.slab|] && |st'.slab| == |st.slab| + 1
                  && PathOf(st', |st.slab|) == Some(p)))
  {
    hide Join;
  }

  // ---- open and create ----------------------------------------------------

  /** The backend's capabilities allow the flags, and a writer can be opened if the
      flags ask for one: not on a directory, and for appending only on an object. */
  predicate MayOpen(st: State, env: Env, p: Path, flags: nat) {
    && (IsTrunc(flags) ==> env.capWrite)
    && (IsAppend(flags) ==> env.capAppend)
    && (IsWrite(flags) ==>
          env.openOk && !env.isDir && (IsAppend(flags) ==> env.statOk && st.norm(p) in st.objects))
  }

  /** The writers after p has been opened: a new one for p if the flags ask to write. */
  function WithWriter(st: State, p: Path, flags: nat): map<Path, InnerWriter> {
    if IsWrite(flags) then st.writers[p := InnerWriter(BaseOf(st, p, flags), [], |BaseOf(st, p, flags)|)]
    else st.writers
  }

  lemma AppendWrites(flags: nat)
    ensures IsAppend(flags) ==> IsWrite(flags)
  {
  }

  lemma SetWriterExactly(st: State, env: Env, p: Path, flags: nat)
    ensures var (st', ok) := SetWriter(st, env, p, flags);
      && (ok <==> MayOpen(st, env, p, flags))
      && st' == (if ok then st.(writers := WithWriter(st, p, flags)) else st)
  {
    hide Bit;
  }

  lemma OpenExactly(st: State, e: Event, p: Path)
    requires e.msg.op.Open? && PathOf(st, e.msg.nodeid) == Some(p)
    ensures var flags, st', ans := e.msg.op.flags, After(st, e), AnswerTo(st, e);
      && (ans == Reply(OpenBody) <==> MayOpen(st, e.env, p, flags))
      && (ans == Reply(OpenBody) ==> st' == st.(writers := WithWriter(st, p, flags)))
      && (ans != Reply(OpenBody) ==> ans == Errno(ENOENT) && st' == st)
  {
    SetWriterExactly(st, e.env, p, e.msg.op.flags);
    hide SetWriter, MayOpen, WithWriter;
  }

  /** create files the inode first: it stays filed when the writer cannot be opened. */
  lemma CreateExactly(st: State, e: Event, dir: Path)
    requires e.msg.op.Create? && PathOf(st, e.msg.nodeid) == Some(dir)
    ensures var p, flags := Join(dir, e.msg.op.name), e.msg.op.flags;
            var st', ans := After(st, e), AnswerTo(st, e);
      && (ans == Reply(CreateBody(Attr(|st.slab|, 0, false))) <==> MayOpen(st, e.env, p, flags))
      && (!MayOpen(st, e.env, p, flags) ==> ans == Errno(ENOENT))
      && PathOf(st', |st.slab|) == Some(p) && st'.inodes == st.inodes[p := |st.slab|]
      && st'.objects == st.objects
      && st'.writers == (if MayOpen(st, e.env, p, flags) then WithWriter(st, p, flags) else st.writers)
  {
    var p, flags := Join(dir, e.msg.op.name), e.msg.op.flags;
    var st1 := Insert(st, p, Attr(0, 0, false));
    SetWriterExactly(st1, e.env, p, flags);
    assert MayOpen(st1, e.env, p, flags) == MayOpen(st, e.env, p, flags);
    assert WithWriter(st1, p, flags) == WithWriter(st, p, flags);
    hide SetWriter, MayOpen, WithWriter, Join;
  }

  /** What a session leaves behind depends on the flags it was opened with: appending
      keeps the object's old content in front of the accepted data, any other writing
      open or create replaces it. */
  lemma CommittedByFlags(st: State, open: Event, es: seq<Event>, release: Event, fs: seq<Event>, p: Path,
                         cur: Option<Session>)
    requires Holds(st, p, cur) && (open.msg.op.Open? || open.msg.op.Create?) && Observe(st, open, p).Opened?
    requires var st1 := After(st, open);
             var st2 := Run(st1, es);
             var st3 := After(st2, release);
      && SessionStaysOpen(st1, es, p) && Observe(st2, release, p).Closed?
      && ObjectLeftAlone(st3, fs, st3.norm(p))
    ensures var st4 := Run(After(Run(After(st, open), es), release), fs);
            var data, k := Concat(Accepted(After(st, open), es, p)), st4.norm(p);
      && k in st4.objects
      && (IsAppend(open.msg.op.flags) ==>
            st.norm(p) in st.objects && st4.objects[k] == st.objects[st.norm(p)] + data)
      && (!IsAppend(open.msg.op.flags) ==> st4.objects[k] == data)
  {
    CommittedContent(st, open, es, release, fs, p, cur);
    BaseByFlags(st, open, p);
    hide Run, After, Observe, Accepted, Concat, PwriteAll, Holds, IsAppend;
    var data := Concat(Accepted(After(st, open), es, p));
    assert [] + data == data;
  }

  lemma BaseByFlags(st: State, open: Event, p: Path)
    requires (open.msg.op.Open? || open.msg.op.Create?) && Observe(st, open, p).Opened?
    ensures IsAppend(open.msg.op.flags) ==>
              st.norm(p) in st.objects && Observe(st, open, p).base == st.objects[st.norm(p)]
    ensures !IsAppend(open.msg.op.flags) ==> Observe(st, open, p).base == []
  {
    hide Step, Join, IsAppend, IsWrite, IsTrunc;
    if open.msg.op.Open? {
      OpenExactly(st, open, p);
    } else {
      CreateExactly(st, open, PathOf(st, open.msg.nodeid).value);
    }
  }

  // ---- mkdir, unlink, rmdir -----------------------------------------------

  /** mkdir files the inode first, too, and changes no object. */
  lemma MkdirExactly(st: State, e: Event, dir: Path)
    requires e.msg.op.Mkdir? && PathOf(st, e.msg.nodeid) == Some(dir)
    ensures var p, st', ans := Join(dir, e.msg.op.name), After(st, e), AnswerTo(st, e);
      && ans == (if e.env.mkdirOk then Reply(EntryBody(Attr(|st.slab|, 0, true))) else Errno(ENOENT))
      && PathOf(st', |st.slab|) == Some(p) && st'.inodes == st.inodes[p := |st.slab|]
      && st'.objects == st.objects && st'.writers == st.writers
  {
    hide Join;
  }

  /** A removal succeeds exactly when the backend deletes the object; then both the
      object and the path's entry are gone, and nothing else. */
  lemma RemoveExactly(st: State, e: Event, dir: Path)
    requires (e.msg.op.Unlink? || e.msg.op.Rmdir?) && PathOf(st, e.msg.nodeid) == Some(dir)
    ensures var p, st', ans := Join(dir, e.msg.op.name), After(st, e), AnswerTo(st, e);
      && (ans == Reply(NoBody) <==> e.env.deleteOk)
      && (ans == Reply(NoBody) ==>
            && st'.objects == st.objects - {st.norm(p)} && st'.inodes == st.inodes - {p}
            && st'.slab == st.slab && st'.writers == st.writers)
      && (ans != Reply(NoBody) ==> ans == Errno(ENOENT) && st' == st)
  {
    hide Join;
  }

  // ---- read, readdir, init ------------------------------------------------

  /** read answers with everything from the offset on; past the end the backend
      decides between nothing and an error. */
  lemma ReadExactly(st: State, e: Event, p: Path)
    requires e.msg.op.Read? && PathOf(st, e.msg.nodeid) == Some(p)
    ensures var at, k, ans := e.msg.op.offset, st.norm(p), AnswerTo(st, e);
      && After(st, e) == st
      && (ans.Data? <==>
            e.env.readOk && k in st.objects && (at <= |st.objects[k]| || e.env.emptyPastEnd))
      && (!ans.Data? ==> ans == Errno(ENOENT))
      && (ans.Data? && at <= |st.objects[k]| ==> st.objects[k] == st.objects[k][..at] + ans.data)
      && (ans.Data? && at > |st.objects[k]| ==> ans.data == [])
  {
  }

  lemma ReaddirExactly(st: State, e: Event, p: Path)
    requires e.msg.op.Readdir? && PathOf(st, e.msg.nodeid) == Some(p)
    requires e.msg.op.at.Some? && e.room >= OUT_HEADER_SIZE
    ensures var ans := AnswerTo(st, e);
      && (ans.Listing? <==> e.env.listing.Some?)
      && (ans.Listing? ==> ans.at == e.msg.op.at.value && |ans.entries| == |e.env.listing.value|)
      && (!ans.Listing? ==> ans == Errno(ENOENT) && After(st, e) == st)
  {
    if e.env.listing.Some? {
      ListingLength(st, p, e.env.listing.value, 0);
    }
    hide ListEntries;
  }

  lemma {:induction false} ListingLength(st: State, p: Path, es: seq<Listed>, i: nat)
    requires i <= |es|
    ensures |ListEntries(st, p, es, i).1| == |es| - i
    decreases |es| - i
  {
    if i < |es| {
      ListingLength(ListEntry(st, p, es[i], i).0, p, es, i + 1);
    }
  }

  /** The version window of init; a refused init changes nothing, an accepted one makes
      "/" inode 1 and changes no other path. */
  lemma InitExactly(st: State, e: Event)
    requires e.msg.op.Init?
    ensures var st', ans := After(st, e), AnswerTo(st, e);
      && (ans == Reply(InitBody) <==> e.msg.op.major == 7 && e.msg.op.minor >= 27)
      && (ans != Reply(InitBody) ==> ans == Errno(EIO) && st' == st)
      && (ans == Reply(InitBody) ==>
            && st'.inodes == st.inodes[[47] := 1] && |st'.slab| == |st.slab| + 2
            && PathOf(st', |st.slab|) == Some([47]) && PathOf(st', |st.slab| + 1) == Some([47])
            && st'.objects == st.objects && st'.writers == st.writers)
  {
  }

  /** flush, releasedir, fsyncdir and opendir only say whether the node exists. */
  lemma AcknowledgeExactly(st: State, e: Event)
    requires e.msg.op.Flush? || e.msg.op.Releasedir? || e.msg.op.Fsyncdir? || e.msg.op.Opendir?
    ensures After(st, e) == st
    ensures AnswerTo(st, e).Reply? <==> e.msg.nodeid < |st.slab|
    ensures AnswerTo(st, e).Reply? ==>
              AnswerTo(st, e) == if e.msg.op.Opendir? then Reply(OpenBody) else Reply(NoBody)
  {
  }

  // ---- paths --------------------------------------------------------------

  /** Children of different directories, or with different names, have different paths, as
      long as the names hold no slash; the directory's path is in front, the name behind. */
  lemma PathsDiffer(p: Path, n: Bytes, q: Path, m: Bytes)
    requires SLASH !in n && SLASH !in m
    ensures Join(p, n) == Join(q, m) <==> p == q && n == m
    ensures p <= Join(p, n) && Join(p, n)[|Join(p, n)| - |n|..] == n
  {
    var a, b := Join(p, n), Join(q, m);
    assert a[|p|] == SLASH && b[|q|] == SLASH;
    if a == b {
      assert |p| == |q|;
      assert a[..|p|] == p && b[..|q|] == q && a[|p| + 1..] == n && b[|q| + 1..] == m;
    }
  }

  /** A listed name is shown without its trailing slash, and only that is cut. */
  lemma ShownExactly(name: Bytes)
    ensures name == ShownName(name) || name == ShownName(name) + [SLASH]
    ensures name == ShownName(name) <==> name == [] || name[|name| - 1] != SLASH
  {
  }

  // ---- requests that reach no operation -----------------------------------

  /** A nodeid that was never handed out is answered ENOENT by every operation on a
      node; what cannot be understood is answered by its own errno.  Nothing changes. */
  lemma RefusedExactly(st: State, e: Event)
    ensures var st', ans, op := After(st, e), AnswerTo(st, e), e.msg.op;
      && (NeedsNode(op) && e.msg.nodeid >= |st.slab| ==> ans == Errno(2) && st' == st)
      && (op.Unsupported? ==> ans == Errno(38) && st' == st)
      && (op.BadName? || op.TooLong? ==> ans == Errno(5) && st' == st)
      && (ans == Errno(38) ==> op.Unsupported?)
  {
    hide GetMetadata, SetWriter, ListEntries, ReleaseWriter, WritePath, ReadPath, Delete;
  }

  /** The errors a guest can be given. */
  lemma ErrnoCodes(st: State, e: Event)
    ensures AnswerTo(st, e).Errno? ==> AnswerTo(st, e).code in {2, 5, 38}
  {
    hide GetMetadata, SetWriter, ListEntries, ReleaseWriter, WritePath, ReadPath, Delete;
  }

  // ---- which objects there are --------------------------------------------

  /** What an accepted message says about the object k: committed, removed, or nothing. */
  function Says(st: State, e: Event, k: Path): Option<bool> {
    match PathOf(st, e.msg.nodeid)
    case None => None
    case Some(q) =>
      if !AnswerTo(st, e).Reply? then None
      else
        match e.msg.op
        case Release => if st.norm(q) == k then Some(true) else None
        case Unlink(name) => if st.norm(Join(q, name)) == k then Some(false) else None
        case Rmdir(name) => if st.norm(Join(q, name)) == k then Some(false) else None
        case _ => None
  }

  /** Whether k is there after a run, from requests and replies: the last word counts. */
  function Present(st: State, es: seq<Event>, k: Path, before: bool): bool
    decreases |es|
  {
    if es == [] then before
    else
      var said := Says(st, es[0], k);
      Present(After(st, es[0]), es[1..], k, if said.Some? then said.value else before)
  }

  lemma StepPresence(st: State, e: Event, k: Path)
    ensures k in After(st, e).objects <==>
              (if Says(st, e, k).Some? then Says(st, e, k).value else k in st.objects)
  {
    hide GetMetadata, SetWriter, ListEntries, Join;
    if PathOf(st, e.msg.nodeid).Some? {
      FramesOf(st, e.msg.op, e.env, PathOf(st, e.msg.nodeid).value);
    }
  }

  /** Over every run the backend holds an object exactly when the last accepted message
      about it was a release and not a removal. */
  lemma {:induction false} PresenceTracked(st: State, es: seq<Event>, k: Path)
    ensures k in Run(st, es).objects <==> Present(st, es, k, k in st.objects)
    decreases |es|
  {
    hide Says, Step;
    if es != [] {
      StepPresence(st, es[0], k);
      PresenceTracked(After(st, es[0]), es[1..], k);
    }
  }

  predicate NeverCommitted(st: State, es: seq<Event>, k: Path)
    decreases |es|
  {
    es == [] || (Says(st, es[0], k) != Some(true) && NeverCommitted(After(st, es[0]), es[1..], k))
  }

  lemma {:induction false} StaysAbsent(st: State, es: seq<Event>, k: Path)
    requires k !in st.objects && NeverCommitted(st, es, k)
    ensures k !in Run(st, es).objects && Run(st, es).norm == st.norm
    decreases |es|
  {
    hide Says, Step;
    if es != [] {
      StepPresence(st, es[0], k);
      StepKeepsNorm(st, es[0]);
      StaysAbsent(After(st, es[0]), es[1..], k);
    }
  }

  /** After an accepted removal of p, whatever else happens, until a release commits an
      object of that name again: every read of a path naming it fails, every lookup and
      getattr of one as a file fails, and none can be opened for appending. */
  lemma RemovedStaysGone(st: State, remove: Event, es: seq<Event>, e: Event, dir: Path, q: Path)
    requires (remove.msg.op.Unlink? || remove.msg.op.Rmdir?) && PathOf(st, remove.msg.nodeid) == Some(dir)
    requires AnswerTo(st, remove).Reply?
    requires var k := st.norm(Join(dir, remove.msg.op.name));
      && NeverCommitted(After(st, remove), es, k) && st.norm(q) == k
    requires var end := Run(After(st, remove), es);
      && PathOf(end, e.msg.nodeid).Some? && q == Target(PathOf(end, e.msg.nodeid).value, e.msg.op)
    ensures var end, op := Run(After(st, remove), es), e.msg.op;
      && (op.Read? ==> AnswerTo(end, e) == Errno(ENOENT))
      && ((op.Lookup? || op.Getattr? || op.Setattr?) && !e.env.isDir ==> AnswerTo(end, e) == Errno(ENOENT))
      && (op.Open? && IsAppend(op.flags) ==> AnswerTo(end, e) == Errno(ENOENT))
  {
    hide Step, Join, IsAppend, IsWrite, IsTrunc, NeverCommitted, Run;
    var k := st.norm(Join(dir, remove.msg.op.name));
    RemoveExactly(st, remove, dir);
    StepKeepsNorm(st, remove);
    StaysAbsent(After(st, remove), es, k);
    var end, op := Run(After(st, remove), es), e.msg.op;
    var at := PathOf(end, e.msg.nodeid).value;
    if op.Read? {
      ReadExactly(end, e, at);
    } else if op.Lookup? || op.Getattr? || op.Setattr? {
      MetadataExactly(end, e, at);
    } else if op.Open? {
      AppendWrites(op.flags);
      OpenExactly(end, e, at);
    }
  }

  // ---- inodes are not reused ----------------------------------------------

  /** The path is not filed, or only under an inode from n on. */
  predicate NewSince(st: State, p: Path, n: nat) {
    n <= |st.slab| && (p in st.inodes ==> st.inodes[p] >= n)
  }

  lemma {:induction false} ListingNewSince(st: State, q: Path, es: seq<Listed>, i: nat, p: Path, n: nat)
    requires NewSince(st, p, n)
    ensures NewSince(ListEntries(st, q, es, i).0, p, n)
    decreases |es| - i
  {
    if i < |es| {
      ListingNewSince(ListEntry(st, q, es[i], i).0, q, es, i + 1, p, n);
    }
  }

  lemma OnNodeNewSince(st: State, op: Op, env: Env, q: Path, room: nat, p: Path, n: nat)
    requires NeedsNode(op) && NewSince(st, p, n)
    ensures NewSince(OnNode(st, op, env, q, room).0, p, n)
  {
    match op
    case Create(flags, name) =>
      SetWriterFrame(Insert(st, Join(q, name), Attr(0, 0, false)), env, Join(q, name), flags);
    case Open(flags) => SetWriterFrame(st, env, q, flags);
    case Readdir(_) =>
      if env.listing.Some? {
        ListingNewSince(st, q, env.listing.value, 0, p, n);
      }
    case _ =>
  }

  lemma {:induction false} RunNewSince(st: State, es: seq<Event>, p: Path, n: nat)
    requires NewSince(st, p, n) && p != ROOT
    ensures NewSince(Run(st, es), p, n)
    decreases |es|
  {
    if es != [] {
      StepNewSince(st, es[0], p, n);
      RunNewSince(After(st, es[0]), es[1..], p, n);
    }
  }

  lemma StepNewSince(st: State, e: Event, p: Path, n: nat)
    requires NewSince(st, p, n) && p != ROOT
    ensures NewSince(After(st, e), p, n)
  {
    if NeedsNode(e.msg.op) && PathOf(st, e.msg.nodeid).Some? {
      OnNodeNewSince(st, e.msg.op, e.env, PathOf(st, e.msg.nodeid).value, e.room, p, n);
    }
    hide OnNode, NewSince;
    if e.msg.op.Init? {
      InitNewSince(st, e.msg.op.major, e.msg.op.minor, p, n);
    }
  }

  lemma InitNewSince(st: State, major: nat, minor: nat, p: Path, n: nat)
    requires NewSince(st, p, n) && p != ROOT
    ensures NewSince(InitOp(st, major, minor).0, p, n)
  {
  }

  /** A removed path never gets an inode back that was handed out before its removal:
      every later successful lookup reports one that was not there then. */
  lemma RemovedInodeNotReused(st: State, remove: Event, es: seq<Event>, e: Event, dir: Path)
    requires TableInv(st)
    requires (remove.msg.op.Unlink? || remove.msg.op.Rmdir?) && PathOf(st, remove.msg.nodeid) == Some(dir)
    requires AnswerTo(st, remove).Reply?
    requires var end := Run(After(st, remove), es);
      && e.msg.op.Lookup? && PathOf(end, e.msg.nodeid).Some? && AnswerTo(end, e).Reply?
      && Join(PathOf(end, e.msg.nodeid).value, e.msg.op.name) == Join(dir, remove.msg.op.name)
    ensures AnswerTo(Run(After(st, remove), es), e).body.EntryBody?
    ensures AnswerTo(Run(After(st, remove), es), e).body.attr.ino >= |st.slab|
  {
    hide Step, Join, Run;
    var p, end := Join(dir, remove.msg.op.name), Run(After(st, remove), es);
    RemoveExactly(st, remove, dir);
    ChildNotRoot(dir, remove.msg.op.name);
    RunNewSince(After(st, remove), es, p, |st.slab|);
    StepNewSince(end, e, p, |st.slab|);
    LookupAnswer(end, e, p);
  }

  /** Any five bytes under the name "a": looked up, they are five bytes; unlinked, the
      name is unknown. */
  lemma RemovalExample(norm: Path -> Path, objects: map<Path, Bytes>)
    requires norm(Join(ROOT, [97])) in objects && |objects[norm(Join(ROOT, [97]))]| == 5
    ensures var env := Obliging().(isDir := false);
            var s0 := Mounted(norm, objects);
            var look, unlink := Ask(2, 1, Lookup([97]), env), Ask(3, 1, Unlink([97]), env);
            var s1 := After(s0, look);
            var s2 := After(s1, unlink);
      && AnswerTo(s0, look) == Reply(EntryBody(Attr(2, 5, false)))
      && AnswerTo(s1, unlink) == Reply(NoBody)
      && AnswerTo(s2, Ask(4, 1, Lookup([97]), env)) == Errno(ENOENT)
      && AnswerTo(s2, Ask(5, 2, Read(0), env)) == Errno(ENOENT)
  {
    hide Step, Join;
    var env := Obliging().(isDir := false);
    var s0 := Mounted(norm, objects);
    MountedState(norm, objects);
    ChildNotRoot(ROOT, [97]);
    var look, unlink := Ask(2, 1, Lookup([97]), env), Ask(3, 1, Unlink([97]), env);
    MetadataExactly(s0, look, ROOT);
    var s1 := After(s0, look);
    StepKeepsNorm(s0, look);
    StepInv(s0, look.msg, env, 4096);
    RemoveExactly(s1, unlink, ROOT);
    assert Run(After(s1, unlink), []) == After(s1, unlink);
    RemovedStaysGone(s1, unlink, [], Ask(4, 1, Lookup([97]), env), ROOT, Join(ROOT, [97]));
    RemovedStaysGone(s1, unlink, [], Ask(5, 2, Read(0), env), ROOT, Join(ROOT, [97]));
  }
}
