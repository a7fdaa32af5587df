/** The inode table over arbitrary runs of messages. */
module Inodes {
  import opened GuestMemory
  import opened Chain
  import opened Messages
  import opened Requests
  import opened FsModel

  /** Before the first accepted init nothing is filed; from then on slots 0 and 1
      hold "/", "/" maps to 1, and every map entry points at a slot of its path. */
  ghost predicate TableInv(st: State) {
    && (forall p :: p in st.inodes ==>
          1 <= st.inodes[p] < |st.slab| && st.slab[st.inodes[p]].path == p)
    && (forall i :: 0 <= i < |st.slab| ==> |st.slab[i].path| >= 1)
    && (st.slab != [] ==>
          && |st.slab| >= 2 && st.slab[0].path == ROOT && st.slab[1].path == ROOT
          && ROOT in st.inodes && st.inodes[ROOT] == DEFAULT_ROOT_DIR_INODE)
  }

  /** The new state keeps the invariant and has only appended to the slab. */
  ghost predicate Grown(st: State, st': State) {
    TableInv(st') && st.slab <= st'.slab
  }

  lemma InsertInv(st: State, p: Path, attr: Attr)
    requires TableInv(st) && st.slab != [] && |p| >= 1 && p != ROOT
    ensures Grown(st, Insert(st, p, attr))
  {
  }

  lemma SameTable(st: State, st': State)
    requires TableInv(st) && st'.slab == st.slab && st'.inodes == st.inodes
    ensures Grown(st, st')
  {
  }

  /** A path that is filed for the first time is never "/". */
  lemma GetMetadataInv(st: State, env: Env, p: Path)
    requires TableInv(st) && st.slab != [] && |p| >= 1
    ensures Grown(st, GetMetadata(st, env, p).0)
  {
    if p in st.inodes {
      SameTable(st, st);
    } else {
      forall a: Attr ensures Grown(st, Insert(st, p, a)) {
        InsertInv(st, p, a);
      }
    }
  }

  /** d is the reply entry for the k-th listed child: its inode names the child's key. */
  ghost predicate Describes(st: State, p: Path, e: Listed, k: nat, d: DirEntry) {
    && 1 <= d.ino < |st.slab| && st.slab[d.ino].path == ListedKey(p, e.name)
    && d.off == k + 1
    && d.name == ShownName(e.name)
    && d.type_ == (if e.isDir then DIR_TYPE else FILE_TYPE)
  }

  lemma DescribesGrown(st: State, st': State, p: Path, e: Listed, k: nat, d: DirEntry)
    requires Describes(st, p, e, k, d) && Grown(st, st')
    ensures Describes(st', p, e, k, d)
  {
  }

  lemma ListEntryInv(st: State, p: Path, e: Listed, i: nat)
    requires TableInv(st) && st.slab != []
    ensures Grown(st, ListEntry(st, p, e, i).0)
    ensures TableInv(ListEntry(st, p, e, i).0) && ListEntry(st, p, e, i).0.slab != []
    ensures Describes(ListEntry(st, p, e, i).0, p, e, i, ListEntry(st, p, e, i).1)
  {
    InsertInv(st, ListedKey(p, e.name), Attr(0, e.size, e.isDir));
    SameTable(st, st);
  }

  lemma ListEntriesStep(st: State, p: Path, es: seq<Listed>, i: nat)
    requires i < |es|
    ensures var (st1, d) := ListEntry(st, p, es[i], i);
      ListEntries(st, p, es, i) ==
        (ListEntries(st1, p, es, i + 1).0, [d] + ListEntries(st1, p, es, i + 1).1)
  {
  }

  lemma {:induction false} ListEntriesInv(st: State, p: Path, es: seq<Listed>, i: nat)
    requires TableInv(st) && st.slab != [] && i <= |es|
    ensures Grown(st, ListEntries(st, p, es, i).0)
    ensures |ListEntries(st, p, es, i).1| == |es| - i
    decreases |es| - i
  {
    if i == |es| {
      SameTable(st, st);
    } else {
      ListEntryInv(st, p, es[i], i);
      hide ListEntry;
      hide TableInv;
      ListEntriesInv(ListEntry(st, p, es[i], i).0, p, es, i + 1);
    }
  }

  lemma CreateInv(st: State, env: Env, p: Path, flags: nat)
    requires TableInv(st) && st.slab != [] && |p| >= 1 && p != ROOT
    ensures Grown(st, CreateOp(st, env, p, flags).0)
  {
    var st1 := Insert(st, p, Attr(0, 0, false));
    InsertInv(st, p, Attr(0, 0, false));
    SetWriterFrame(st1, env, p, flags);
    SameTable(st1, SetWriter(st1, env, p, flags).0);
  }

  lemma RemoveInv(st: State, env: Env, p: Path)
    requires TableInv(st) && p != ROOT
    ensures Grown(st, RemoveOp(st, env, p).0)
  {
    SameTable(st, Delete(st, env, p).0);
  }

  lemma ReaddirInv(st: State, env: Env, p: Path, at: Option<nat>, room: nat)
    requires TableInv(st) && st.slab != []
    ensures Grown(st, ReaddirOp(st, env, p, at, room).0)
  {
    SameTable(st, st);
    if env.listing.Some? {
      ListEntriesInv(st, p, env.listing.value, 0);
    }
  }

  /** The messages that can touch the table at all. */
  predicate TouchesTable(op: Op) {
    op.Lookup? || op.Getattr? || op.Setattr? || op.Create? || op.Mkdir? || op.Unlink? || op.Rmdir?
    || op.Readdir?
  }

  lemma OnNodeSame(st: State, op: Op, env: Env, p: Path, room: nat)
    requires NeedsNode(op) && !TouchesTable(op)
    ensures var st' := OnNode(st, op, env, p, room).0;
      st'.slab == st.slab && st'.inodes == st.inodes
  {
  }

  lemma ChildNotRoot(p: Path, name: Bytes)
    requires |p| >= 1
    ensures |Join(p, name)| >= 2 && Join(p, name) != ROOT
  {
  }

  lemma OnNodeInv(st: State, op: Op, env: Env, p: Path, room: nat)
    requires NeedsNode(op) && TableInv(st) && st.slab != [] && |p| >= 1
    ensures Grown(st, OnNode(st, op, env, p, room).0)
  {
    if !TouchesTable(op) {
      OnNodeSame(st, op, env, p, room);
      SameTable(st, OnNode(st, op, env, p, room).0);
    } else {
      hide Grown, TableInv, Join, GetMetadata, CreateOp, RemoveOp, ReaddirOp, Insert;
      ChildNotRoot(p, if op.Lookup? || op.Create? || op.Mkdir? || op.Unlink? || op.Rmdir? then op.name else []);
      match op
      case Lookup(name) => GetMetadataInv(st, env, Join(p, name));
      case Getattr => GetMetadataInv(st, env, p);
      case Setattr => GetMetadataInv(st, env, p);
      case Create(flags, name) => CreateInv(st, env, Join(p, name), flags);
      case Mkdir(name) => InsertInv(st, Join(p, name), Attr(0, 0, true));
      case Unlink(name) => RemoveInv(st, env, Join(p, name));
      case Rmdir(name) => RemoveInv(st, env, Join(p, name));
      case Readdir(at) => ReaddirInv(st, env, p, at, room);
    }
  }

  lemma InitInv(st: State, major: nat, minor: nat)
    requires TableInv(st)
    ensures Grown(st, InitOp(st, major, minor).0)
  {
    var root := OpenedFile(ROOT, Attr(DEFAULT_ROOT_DIR_INODE, 0, true));
    var slab := st.slab + [root] + [root];
    assert st.slab <= slab;
    if st.slab == [] {
      assert slab == [root, root];
    } else {
      assert slab[0] == st.slab[0] && slab[1] == st.slab[1];
    }
    assert forall i :: 0 <= i < |slab| ==> |slab[i].path| >= 1;
    SameTable(st, st);
  }

  /** Every message keeps the table invariant and only ever appends to the slab. */
  lemma StepInv(st: State, msg: Msg, env: Env, room: nat)
    requires TableInv(st)
    ensures TableInv(Step(st, msg, env, room).0)
    ensures st.slab <= Step(st, msg, env, room).0.slab
  {
    assert Grown(st, Step(st, msg, env, room).0) by {
      SameTable(st, st);
      if NeedsNode(msg.op) {
        if PathOf(st, msg.nodeid).Some? {
          OnNodeInv(st, msg.op, env, PathOf(st, msg.nodeid).value, room);
        }
      } else {
        if msg.op.Init? {
          InitInv(st, msg.op.major, msg.op.minor);
        }
        hide Grown;
        hide TableInv;
        hide InitOp;
        assert Grown(st, Step(st, msg, env, room).0);
      }
    }
  }

  lemma {:induction false} RunInv(st: State, es: seq<Event>)
    requires TableInv(st)
    ensures TableInv(Run(st, es))
    ensures st.slab <= Run(st, es).slab
    decreases |es|
  {
    if es != [] {
      StepInv(st, es[0].msg, es[0].env, es[0].room);
      RunInv(After(st, es[0]), es[1..]);
    }
  }

  /** In every reachable state the map is injective and agrees with the slab. */
  lemma ReachableTable(norm: Path -> Path, objects: map<Path, Bytes>, es: seq<Event>, p: Path, q: Path)
    ensures var st := Run(Empty(norm, objects), es);
      && TableInv(st)
      && (p in st.inodes && q in st.inodes && p != q ==> st.inodes[p] != st.inodes[q])
  {
    RunInv(Empty(norm, objects), es);
  }

  // ---- what replies report ------------------------------------------------

  /** (nodeid, path) pairs a reply hands to the guest. */
  function Reported(st: State, msg: Msg, env: Env, room: nat): set<(nat, Path)> {
    match PathOf(st, msg.nodeid)
    case None => {}
    case Some(p) =>
      match (msg.op, Step(st, msg, env, room).1)
      case (Lookup(name), Reply(EntryBody(a))) => {(a.ino, Join(p, name))}
      case (Getattr, Reply(AttrBody(a))) => {(a.ino, p)}
      case (Setattr, Reply(AttrBody(a))) => {(a.ino, p)}
      case (Create(_, name), Reply(CreateBody(a))) => {(a.ino, Join(p, name))}
      case (Mkdir(name), Reply(EntryBody(a))) => {(a.ino, Join(p, name))}
      case (Readdir(_), Listing(_, ds)) =>
        if env.listing.Some? then
          var es := env.listing.value;
          set i | 0 <= i < |ds| && i < |es| :: (ds[i].ino, ListedKey(p, es[i].name))
        else {}
      case _ => {}
  }

  lemma {:induction false} ListEntriesReport(st: State, p: Path, es: seq<Listed>, i: nat, k: nat)
    requires TableInv(st) && st.slab != [] && i <= k < |es|
    ensures |ListEntries(st, p, es, i).1| == |es| - i
    ensures Describes(ListEntries(st, p, es, i).0, p, es[k], k, ListEntries(st, p, es, i).1[k - i])
    decreases |es| - i
  {
    hide TableInv, Grown, Describes, ListEntry, ListEntries;
    ListEntriesInv(st, p, es, i);
    ListEntryInv(st, p, es[i], i);
    ListEntriesStep(st, p, es, i);
    var (st1, d) := ListEntry(st, p, es[i], i);
    ListEntriesInv(st1, p, es, i + 1);
    var rest := ListEntries(st1, p, es, i + 1);
    var whole := ListEntries(st, p, es, i);
    assert whole.0 == rest.0;
    assert |whole.1| == |es| - i;
    if i < k {
      ListEntriesReport(st1, p, es, i + 1, k);
      assert Describes(rest.0, p, es[k], k, rest.1[k - i - 1]);
      assert whole.1[k - i] == rest.1[k - i - 1];
    } else {
      DescribesGrown(st1, rest.0, p, es[k], k, d);
      assert Describes(rest.0, p, es[k], k, d);
      assert whole.1[k - i] == d;
    }
    assert Describes(whole.0, p, es[k], k, whole.1[k - i]);
  }

  /** No reply carries nodeid 0, and a reported nodeid names the path it was reported
      for in the state after the reply and in every later one. */
  lemma NodeidPermanence(st: State, msg: Msg, env: Env, room: nat, later: seq<Event>, n: nat, p: Path)
    requires TableInv(st) && (n, p) in Reported(st, msg, env, room)
    ensures n >= 1
    ensures PathOf(Run(Step(st, msg, env, room).0, later), n) == Some(p)
  {
    StepInv(st, msg, env, room);
    var st1 := Step(st, msg, env, room).0;
    assert n >= 1 && PathOf(st1, n) == Some(p) by {
      ReportedNow(st, msg, env, room, n, p);
    }
    RunInv(st1, later);
  }

  lemma ReportedNow(st: State, msg: Msg, env: Env, room: nat, n: nat, p: Path)
    requires TableInv(st) && (n, p) in Reported(st, msg, env, room)
    ensures n >= 1 && PathOf(Step(st, msg, env, room).0, n) == Some(p)
  {
    var dir := PathOf(st, msg.nodeid).value;
    if msg.op.Readdir? {
      ListedNow(st, msg, env, room, n, p);
    } else if msg.op.Create? {
      var q := Join(dir, msg.op.name);
      SetWriterFrame(Insert(st, q, Attr(0, 0, false)), env, q, msg.op.flags);
      hide SetWriter;
      assert Step(st, msg, env, room) == CreateOp(st, env, q, msg.op.flags);
    } else if msg.op.Mkdir? {
      assert Step(st, msg, env, room) == MkdirOp(st, env, Join(dir, msg.op.name));
    } else {
      var q := if msg.op.Lookup? then Join(dir, msg.op.name) else dir;
      var (st', attr) := GetMetadata(st, env, q);
      assert Step(st, msg, env, room).0 == st';
      MetadataNamed(st, env, q);
      hide GetMetadata;
      assert attr.Some? && attr.value.ino == n && p == q;
    }
  }

  lemma ListedNow(st: State, msg: Msg, env: Env, room: nat, n: nat, p: Path)
    requires TableInv(st) && (n, p) in Reported(st, msg, env, room) && msg.op.Readdir?
    ensures n >= 1 && PathOf(Step(st, msg, env, room).0, n) == Some(p)
  {
    var dir, es := PathOf(st, msg.nodeid).value, env.listing.value;
    var (st', ds) := ListEntries(st, dir, es, 0);
    assert Step(st, msg, env, room) == (st', Listing(msg.op.at.value, ds));
    var i :| 0 <= i < |ds| && i < |es| && (n, p) == (ds[i].ino, ListedKey(dir, es[i].name));
    ListEntriesReport(st, dir, es, 0, i);
    hide ListEntries;
    hide Step;
    assert Describes(st', dir, es[i], i, ds[i - 0]);
  }

  lemma MetadataNamed(st: State, env: Env, p: Path)
    requires TableInv(st) && st.slab != [] && GetMetadata(st, env, p).1.Some?
    ensures var (st', attr) := GetMetadata(st, env, p);
      attr.value.ino >= 1 && PathOf(st', attr.value.ino) == Some(p)
  {
  }

  /** Once an init has been accepted, "/" is inode 1 for good. */
  lemma RootForever(st: State, es: seq<Event>)
    requires TableInv(st) && st.slab != []
    ensures var end := Run(st, es);
      ROOT in end.inodes && end.inodes[ROOT] == 1 && PathOf(end, 1) == Some(ROOT)
  {
    RunInv(st, es);
  }

  // ---- lookup stability ---------------------------------------------------

  /** The message is a create, mkdir, unlink or rmdir of exactly this path string. */
  predicate Renames(st: State, msg: Msg, p: Path) {
    match PathOf(st, msg.nodeid)
    case None => false
    case Some(dir) =>
      match msg.op
      case Create(_, name) => Join(dir, name) == p
      case Mkdir(name) => Join(dir, name) == p
      case Unlink(name) => Join(dir, name) == p
      case Rmdir(name) => Join(dir, name) == p
      case _ => false
  }

  lemma {:induction false} ListEntriesKeep(st: State, p: Path, es: seq<Listed>, i: nat, q: Path)
    requires q in st.inodes
    ensures var st' := ListEntries(st, p, es, i).0;
      q in st'.inodes && st'.inodes[q] == st.inodes[q]
    decreases |es| - i
  {
    if i < |es| {
      ListEntriesKeep(ListEntry(st, p, es[i], i).0, p, es, i + 1, q);
    }
  }

  lemma OnNodeKeeps(st: State, op: Op, env: Env, dir: Path, room: nat, p: Path)
    requires NeedsNode(op) && p in st.inodes
    requires (op.Create? || op.Mkdir? || op.Unlink? || op.Rmdir?) ==> Join(dir, op.name) != p
    ensures var st' := OnNode(st, op, env, dir, room).0;
      p in st'.inodes && st'.inodes[p] == st.inodes[p]
  {
    match op
    case Create(flags, name) =>
      SetWriterFrame(Insert(st, Join(dir, name), Attr(0, 0, false)), env, Join(dir, name), flags);
    case Open(flags) => SetWriterFrame(st, env, dir, flags);
    case Readdir(_) =>
      if env.listing.Some? {
        ListEntriesKeep(st, dir, env.listing.value, 0, p);
      }
    case _ =>
  }

  lemma StepKeeps(st: State, msg: Msg, env: Env, room: nat, p: Path)
    requires TableInv(st) && p in st.inodes && !Renames(st, msg, p)
    ensures var st' := Step(st, msg, env, room).0;
      p in st'.inodes && st'.inodes[p] == st.inodes[p]
  {
    if NeedsNode(msg.op) {
      if PathOf(st, msg.nodeid).Some? {
        OnNodeKeeps(st, msg.op, env, PathOf(st, msg.nodeid).value, room, p);
      }
    }
  }

  predicate Undisturbed(st: State, es: seq<Event>, p: Path)
    decreases |es|
  {
    es == [] || (!Renames(st, es[0].msg, p) && Undisturbed(After(st, es[0]), es[1..], p))
  }

  lemma {:induction false} RunKeeps(st: State, es: seq<Event>, p: Path)
    requires TableInv(st) && p in st.inodes && Undisturbed(st, es, p)
    ensures p in Run(st, es).inodes && Run(st, es).inodes[p] == st.inodes[p]
    decreases |es|
  {
    if es != [] {
      StepKeeps(st, es[0].msg, es[0].env, es[0].room, p);
      StepInv(st, es[0].msg, es[0].env, es[0].room);
      RunKeeps(After(st, es[0]), es[1..], p);
    }
  }

  /** Two successful lookups of one path agree when nothing in between created or
      removed that path. */
  lemma LookupStable(st: State, e1: Event, es: seq<Event>, e2: Event, p: Path)
    requires TableInv(st)
    requires e1.msg.op.Lookup? && e2.msg.op.Lookup?
    requires PathOf(st, e1.msg.nodeid).Some? && Join(PathOf(st, e1.msg.nodeid).value, e1.msg.op.name) == p
    requires AnswerTo(st, e1).Reply?
    requires var mid := Run(After(st, e1), es);
      && Undisturbed(After(st, e1), es, p)
      && PathOf(mid, e2.msg.nodeid).Some? && Join(PathOf(mid, e2.msg.nodeid).value, e2.msg.op.name) == p
      && AnswerTo(mid, e2).Reply?
    ensures AnswerTo(Run(After(st, e1), es), e2).body.attr.ino == AnswerTo(st, e1).body.attr.ino
  {
    StepInv(st, e1.msg, e1.env, e1.room);
    LookupAnswer(st, e1, p);
    RunKeeps(After(st, e1), es, p);
    LookupAnswer(Run(After(st, e1), es), e2, p);
    hide *;
  }

  /** A successful lookup answers with what the map then holds for the path. */
  lemma LookupAnswer(st: State, e: Event, p: Path)
    requires e.msg.op.Lookup? && PathOf(st, e.msg.nodeid).Some?
    requires Join(PathOf(st, e.msg.nodeid).value, e.msg.op.name) == p && AnswerTo(st, e).Reply?
    ensures AnswerTo(st, e).body.EntryBody? && p in After(st, e).inodes
    ensures AnswerTo(st, e).body.attr.ino == After(st, e).inodes[p]
    ensures p in st.inodes ==> After(st, e).inodes[p] == st.inodes[p]
  {
    hide Join;
  }

  /** getattr(i) reports i, and leaves the table alone, exactly when i is what the map
      holds for its path; a stale i is answered with another inode. */
  lemma GetattrCurrent(st: State, msg: Msg, env: Env, room: nat)
    requires TableInv(st) && (msg.op.Getattr? || msg.op.Setattr?)
    requires Step(st, msg, env, room).1.Reply?
    ensures msg.nodeid < |st.slab|
    ensures var (st', ans) := Step(st, msg, env, room);
            var p := st.slab[msg.nodeid].path;
      && (ans.body.attr.ino == msg.nodeid <==> p in st.inodes && st.inodes[p] == msg.nodeid)
      && (st' == st <==> p in st.inodes)
  {
  }

  /** What the guest sees of it: as long as nothing creates or removes the path of an
      inode that is current for it, every successful getattr reports that inode and
      changes nothing. */
  lemma GetattrStable(st: State, es: seq<Event>, e: Event, p: Path, i: nat)
    requires TableInv(st) && p in st.inodes && st.inodes[p] == i && Undisturbed(st, es, p)
    requires (e.msg.op.Getattr? || e.msg.op.Setattr?) && e.msg.nodeid == i && AnswerTo(Run(st, es), e).Reply?
    ensures AnswerTo(Run(st, es), e).body.attr.ino == i
    ensures After(Run(st, es), e) == Run(st, es)
  {
    RunInv(st, es);
    RunKeeps(st, es, p);
    GetattrCurrent(Run(st, es), e.msg, e.env, e.room);
    hide TableInv, Undisturbed, Run, Step;
  }

  // ---- reachable states in which the surprising cases happen --------------

  function Ask(unique: nat, nodeid: nat, op: Op, env: Env): Event { Event(Msg(unique, nodeid, op), env, 4096) }

  /** A backend on which every call succeeds, every path is a directory, and every
      directory holds one file "x". */
  function Obliging(): Env {
    Env(true, true, true, true, 0, true, true, true, true, true, true, true, Some([Listed([120], false, 0)]))
  }

  /** After an accepted init. */
  function Mounted(norm: Path -> Path, objects: map<Path, Bytes>): State {
    After(Empty(norm, objects), Ask(1, 0, Init(7, 38), Obliging()))
  }

  lemma MountedState(norm: Path -> Path, objects: map<Path, Bytes>)
    ensures var root := OpenedFile(ROOT, Attr(1, 0, true));
      Mounted(norm, objects) == State(norm, [root, root], map[ROOT := 1], map[], objects)
  {
  }

  lemma MkdirStep(st: State, e: Event, p: Path)
    requires e.msg.op.Mkdir? && PathOf(st, e.msg.nodeid) == Some(p)
    ensures (After(st, e), AnswerTo(st, e)) == MkdirOp(st, e.env, Join(p, e.msg.op.name))
  {
  }

  /** init, mkdir "a", mkdir "a", getattr(2): the answer speaks of inode 3. */
  lemma StaleInodeReachable(norm: Path -> Path, objects: map<Path, Bytes>)
    ensures var s0 := Mounted(norm, objects);
            var s1 := After(s0, Ask(2, 1, Mkdir([97]), Obliging()));
            var s2 := After(s1, Ask(3, 1, Mkdir([97]), Obliging()));
            var ans := AnswerTo(s2, Ask(4, 2, Getattr, Obliging()));
      && AnswerTo(s0, Ask(2, 1, Mkdir([97]), Obliging())) == Reply(EntryBody(Attr(2, 0, true)))
      && ans.Reply? && ans.body == AttrBody(Attr(3, 0, true))
  {
    var s0 := Mounted(norm, objects);
    MountedState(norm, objects);
    var a := Join(ROOT, [97]);
    assert |a| == 3;
    var e1, e2 := Ask(2, 1, Mkdir([97]), Obliging()), Ask(3, 1, Mkdir([97]), Obliging());
    MkdirStep(s0, e1, ROOT);
    var s1 := After(s0, e1);
    MkdirStep(s1, e2, ROOT);
    var s2 := After(s1, e2);
    assert s2.inodes[a] == 3 && PathOf(s2, 2) == Some(a);
    assert AnswerTo(s2, Ask(4, 2, Getattr, Obliging())) == GetattrOp(s2, Obliging(), a).1;
  }

  /** init, mkdir "a", readdir(2) listing "x", lookup(2, "x"): one child, two inodes. */
  lemma TwoInodesReachable(norm: Path -> Path, objects: map<Path, Bytes>)
    ensures var s1 := After(Mounted(norm, objects), Ask(2, 1, Mkdir([97]), Obliging()));
            var e2, e3 := Ask(3, 2, Readdir(Some(0)), Obliging()), Ask(4, 2, Lookup([120]), Obliging());
            var s2 := After(s1, e2);
      && AnswerTo(s1, e2) == Listing(0, [DirEntry(3, 1, FILE_TYPE, [120])])
      && AnswerTo(s2, e3) == Reply(EntryBody(Attr(4, 0, true)))
      && var s3, dir := After(s2, e3), PathOf(s1, 2).value;
         ListedKey(dir, [120]) in s3.inodes && Join(dir, ShownName([120])) in s3.inodes
  {
    var s0 := Mounted(norm, objects);
    MountedState(norm, objects);
    var a, x := Join(ROOT, [97]), [120];
    var e1 := Ask(2, 1, Mkdir([97]), Obliging());
    MkdirStep(s0, e1, ROOT);
    var s1 := After(s0, e1);
    assert PathOf(s1, 2) == Some(a) && a[|a| - 1] == 97;
    TwoInodesFollow(s1, a);
  }

  lemma TwoInodesFollow(s1: State, a: Path)
    requires PathOf(s1, 2) == Some(a) && !EndsWithSlash(a) && |s1.slab| == 3
    requires ListedKey(a, [120]) !in s1.inodes && Join(a, [120]) !in s1.inodes
    ensures var e2, e3 := Ask(3, 2, Readdir(Some(0)), Obliging()), Ask(4, 2, Lookup([120]), Obliging());
            var s2 := After(s1, e2);
            var s3 := After(s2, e3);
      && AnswerTo(s1, e2) == Listing(0, [DirEntry(3, 1, FILE_TYPE, [120])])
      && AnswerTo(s2, e3) == Reply(EntryBody(Attr(4, 0, true)))
      && ListedKey(a, [120]) in s3.inodes && Join(a, ShownName([120])) in s3.inodes
  {
    var env, es := Obliging(), [Listed([120], false, 0)];
    var e2, e3 := Ask(3, 2, Readdir(Some(0)), env), Ask(4, 2, Lookup([120]), env);
    ReaddirStep(s1, 3, 2, 0, env, 4096);
    var (s2, d) := ListEntry(s1, a, es[0], 0);
    assert ListEntries(s2, a, es, 1) == (s2, []);
    assert ListEntries(s1, a, es, 0) == (s2, [d] + []);
    assert After(s1, e2) == s2;
    KeyAgreement(a, [120]);
    assert PathOf(s2, 2) == Some(a) && ShownName([120]) == [120];
    assert (After(s2, e3), AnswerTo(s2, e3)) == LookupOp(s2, env, Join(a, [120]));
  }

  /** init, readdir of "/" at offset 1 with two children: both are listed. */
  lemma OffsetIgnoredReachable(norm: Path -> Path, objects: map<Path, Bytes>)
    ensures var env := Obliging().(listing := Some([Listed([120], false, 0), Listed([121], false, 0)]));
            var ans := AnswerTo(Mounted(norm, objects), Ask(2, 1, Readdir(Some(1)), env));
      && ans == Listing(1, [DirEntry(2, 1, FILE_TYPE, [120]), DirEntry(3, 2, FILE_TYPE, [121])])
      && Page(ans.entries, 1) == ans.entries != ans.entries[1..]
  {
    var es := [Listed([120], false, 0), Listed([121], false, 0)];
    var env := Obliging().(listing := Some(es));
    var s0 := Mounted(norm, objects);
    MountedState(norm, objects);
    ReaddirStep(s0, 2, 1, 1, env, 4096);
    var (s1, d1) := ListEntry(s0, ROOT, es[0], 0);
    var (s2, d2) := ListEntry(s1, ROOT, es[1], 1);
    var kx, ky := ListedKey(ROOT, [120]), ListedKey(ROOT, [121]);
    assert kx[2] == 120 && ky[2] == 121;
    assert ListEntries(s2, ROOT, es, 2) == (s2, []);
    assert ListEntries(s1, ROOT, es, 1) == (s2, [d2] + []);
    assert ListEntries(s0, ROOT, es, 0) == (s2, [d1] + ([d2] + []));
    assert [d1] + ([d2] + []) == [d1, d2];
    assert |[d1, d2][1..]| == 1;
  }

  // ---- readdir keys against lookup keys -----------------------------------

  /** The key readdir files a child under is the key a later lookup of the shown name
      uses exactly when the parent's path ends in '/' and the listed name does not. */
  lemma KeyAgreement(parent: Path, name: Bytes)
    ensures ListedKey(parent, name) == Join(parent, ShownName(name))
       <==> EndsWithSlash(parent) && !EndsWithSlash(name)
  {
    var a, b := ListedKey(parent, name), Join(parent, ShownName(name));
    assert |a| == |DirPath(parent)| + 1 + |name|;
    assert |b| == |parent| + 1 + |ShownName(name)|;
  }

  /** Otherwise, while both keys are filed, the guest sees two inodes for one child. */
  lemma KeyDisagreement(st: State, parent: Path, name: Bytes)
    requires TableInv(st)
    requires !(EndsWithSlash(parent) && !EndsWithSlash(name))
    requires ListedKey(parent, name) in st.inodes && Join(parent, ShownName(name)) in st.inodes
    ensures st.inodes[ListedKey(parent, name)] != st.inodes[Join(parent, ShownName(name))]
  {
    KeyAgreement(parent, name);
  }

  // ---- readdir run --------------------------------------------------------

  /** What one readdir reply lists: everything, unless the offset is past the end. */
  function Page(entries: seq<DirEntry>, at: nat): seq<DirEntry> {
    if at >= |entries| then [] else entries
  }

  /** A guest that starts over from the last `off` it was given until nothing comes. */
  function ReadAll(entries: seq<DirEntry>, at: nat): seq<DirEntry>
    requires forall i :: 0 <= i < |entries| ==> entries[i].off == i + 1
    decreases |entries| - at
  {
    var page := Page(entries, at);
    if page == [] then [] else page + ReadAll(entries, page[|page| - 1].off)
  }

  /** The later state still has the path where the earlier one had it. */
  predicate SameInode(st: State, later: State, q: Path) {
    q in st.inodes ==> q in later.inodes && later.inodes[q] == st.inodes[q]
  }

  /** Listing the same directory again, while its children's keys are where they were,
      files nothing new and returns the same entries. */
  lemma {:induction false} RelistSame(st: State, later: State, p: Path, es: seq<Listed>, i: nat)
    requires i <= |es|
    requires var st' := ListEntries(st, p, es, i).0;
      forall k :: i <= k < |es| ==> SameInode(st', later, ListedKey(p, es[k].name))
    ensures ListEntries(later, p, es, i) == (later, ListEntries(st, p, es, i).1)
    decreases |es| - i
  {
    if i < |es| {
      var st1 := ListEntry(st, p, es[i], i).0;
      ListEntriesKeep(st1, p, es, i + 1, ListedKey(p, es[i].name));
      RelistSame(st1, later, p, es, i + 1);
    }
  }

  /** A directory read from offset 0 on an unchanged listing: the first reply names
      every entry in order with offsets 1, 2, ...; the second, from the last offset, is
      empty; nothing is listed twice and the second reply files no inode. */
  lemma ReaddirRun(st: State, dir: nat, env: Env, room: nat, u1: nat, u2: nat)
    requires TableInv(st) && dir < |st.slab| && room >= OUT_HEADER_SIZE && env.listing.Some?
    ensures var es := env.listing.value;
            var (st1, first) := Step(st, Msg(u1, dir, Readdir(Some(0))), env, room);
            var (st2, again) := Step(st1, Msg(u2, dir, Readdir(Some(|es|))), env, room);
      && first.Listing? && again.Listing? && again.entries == first.entries && st2 == st1
      && |first.entries| == |es|
      && (forall i :: 0 <= i < |es| ==>
            first.entries[i].off == i + 1 && first.entries[i].name == ShownName(es[i].name))
      && ReadAll(first.entries, 0) == first.entries
      && Page(again.entries, |es|) == []
  {
    hide ListEntries;
    hide Step;
    hide ReadAll;
    hide ShownName;
    hide TableInv;
    var es, p := env.listing.value, st.slab[dir].path;
    var (st1, ds) := ListEntries(st, p, es, 0);
    ListEntriesInv(st, p, es, 0);
    RelistSame(st, st1, p, es, 0);
    ListingNames(st, p, es);
    ReadAllOnce(ds);
    assert Page(ds, |es|) == [];
    ReaddirStep(st, u1, dir, 0, env, room);
    ReaddirStep(st1, u2, dir, |es|, env, room);
    hide *;
    var (st1', first) := Step(st, Msg(u1, dir, Readdir(Some(0))), env, room);
    assert st1' == st1 && first == Listing(0, ds);
    var (st2, again) := Step(st1, Msg(u2, dir, Readdir(Some(|es|))), env, room);
    assert st2 == st1 && again == Listing(|es|, ds);
    assert forall i :: 0 <= i < |es| ==>
             first.entries[i].off == i + 1 && first.entries[i].name == ShownName(es[i].name);
    assert ReadAll(first.entries, 0) == first.entries;
  }

  lemma ReaddirStep(st: State, unique: nat, dir: nat, at: nat, env: Env, room: nat)
    requires dir < |st.slab| && room >= OUT_HEADER_SIZE && env.listing.Some?
    ensures var (st', ds) := ListEntries(st, st.slab[dir].path, env.listing.value, 0);
      Step(st, Msg(unique, dir, Readdir(Some(at))), env, room) == (st', Listing(at, ds))
  {
  }

  lemma ListingNames(st: State, p: Path, es: seq<Listed>)
    requires TableInv(st) && st.slab != []
    ensures var ds := ListEntries(st, p, es, 0).1;
      && |ds| == |es|
      && forall i :: 0 <= i < |es| ==> ds[i].off == i + 1 && ds[i].name == ShownName(es[i].name)
  {
    var ds := ListEntries(st, p, es, 0).1;
    ListEntriesInv(st, p, es, 0);
    forall i | 0 <= i < |es|
      ensures ds[i].off == i + 1 && ds[i].name == ShownName(es[i].name)
    {
      ListEntriesReport(st, p, es, 0, i);
      assert ds[i - 0] == ds[i];
    }
  }

  /** Starting at 0 and continuing from the last offset reads every entry once. */
  lemma ReadAllOnce(entries: seq<DirEntry>)
    requires forall i :: 0 <= i < |entries| ==> entries[i].off == i + 1
    ensures ReadAll(entries, 0) == entries
  {
    if entries != [] {
      assert ReadAll(entries, |entries|) == [];
      assert entries + [] == entries;
    }
  }

  /** The offset is ignored below the end: a page is the rest of the listing only when
      the guest starts at 0 or past the end. */
  lemma PageIsSuffix(entries: seq<DirEntry>, at: nat)
    ensures Page(entries, at) == entries[Min(at, |entries|)..] <==> at == 0 || at >= |entries|
  {
  }
}
