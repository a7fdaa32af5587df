/** The handlers as the source runs them: reading the request through a `Reader`,
    changing the tables in place, answering through a `Writer`.  Every handler, and
    the dispatcher over all of them, is proved to compute Parse, then Step, then Emit. */
module Handlers {
  import opened GuestMemory
  import opened Chain
  import opened Cursor
  import opened Messages
  import opened Requests
  import opened FsModel
  import opened Replies

  /** State, memory and outcome of handling a decoded message. */
  function Answered(st: State, msg: Msg, env: Env, mem: Bytes, ws: seq<Slice>): (State, Bytes, Outcome) {
    var (st', ans) := Step(st, msg, env, |Cells(ws)|);
    var (mem', out) := Emit(mem, ws, msg.unique, ans);
    (st', mem', out)
  }

  /** The specification of the dispatcher, on whole chains. */
  function Serve(st: State, env: Env, mem: Bytes, rs: seq<Slice>, ws: seq<Slice>): (State, Bytes, Outcome) {
    Answered(st, Parse(mem, rs), env, mem, ws)
  }

  ghost predicate Wired(r: Reader, w: Writer)
    reads r.buffer, w.buffer
  {
    && r.Valid() && w.Valid() && r.mem == w.mem && r.buffer != w.buffer
    && w.buffer.bytesConsumed == 0
  }

  /** The message a handler sees: its header and what is left in the reader. */
  ghost function Seen(h: InHeader, r: Reader): Msg
    reads r.mem, r.buffer
  {
    Msg(h.unique, h.nodeid, ParseOp(h, r.mem[..], r.buffer.buffers))
  }

  predicate Fits(h: InHeader) { h.len <= MAX_BUFFER_SIZE + BUFFER_HEADER_SIZE }

  /** `in_header.len` gives the length of the name behind `fixed` bytes of structure. */
  method ReadName(h: InHeader, fixed: nat, r: Reader) returns (n: Named)
    requires r.Valid()
    modifies r.buffer
    ensures n == NameOf(h, old(r.Left()), fixed)
  {
    if h.len < IN_HEADER_SIZE + fixed {
      return NamePanic;
    }
    var buf := new u8[h.len - IN_HEADER_SIZE - fixed](_ => 0);
    var ok := r.ReadExact(buf);
    if !ok {
      return NameShort;
    }
    match BytesToStr(buf[..])
    case None => return NameBad;
    case Some(name) => return NameOk(name);
  }

  // ---- which step a handler takes -----------------------------------------

  lemma Concludes(st: State, msg: Msg, env: Env, mem: Bytes, ws: seq<Slice>, st': State, ans: Answer)
    requires Step(st, msg, env, |Cells(ws)|) == (st', ans)
    ensures Answered(st, msg, env, mem, ws) ==
              (st', Emit(mem, ws, msg.unique, ans).0, Emit(mem, ws, msg.unique, ans).1)
  {
  }

  lemma AbortStep(st: State, msg: Msg, env: Env, mem: Bytes, ws: seq<Slice>)
    requires msg.op == Truncated
    ensures Answered(st, msg, env, mem, ws) == (st, mem, Err)
  {
  }

  datatype Resolved = Stop(ans: Answer) | Child(path: Path)

  /** The path of a named child of the request's node, or how the request ends. */
  function ChildOf(st: State, h: InHeader, left: Bytes, fixed: nat): Resolved {
    match NameOf(h, left, fixed)
    case NamePanic => Stop(Crash)
    case NameShort => Stop(Abort)
    case NameBad => Stop(Errno(EIO))
    case NameOk(name) =>
      match PathOf(st, h.nodeid)
      case None => Stop(Errno(ENOENT))
      case Some(p) => Child(Join(p, name))
  }

  /** lookup, unlink, rmdir, mkdir and create, after their fixed structure was read. */
  lemma NamedStep(st: State, h: InHeader, mem: Bytes, rest: seq<Slice>, fixed: nat, env: Env, room: nat)
    requires Fits(h) && h.opcode in {1, 9, 10, 11, 35}
    requires fixed == (if h.opcode == 9 then MKDIR_IN_SIZE else if h.opcode == 35 then CREATE_IN_SIZE else 0)
    requires fixed <= |Cells(rest)|
    ensures var left := View(mem, Cells(rest));
            var step := Step(st, Msg(h.unique, h.nodeid, ParseOp(h, mem, rest)), env, room);
      match ChildOf(st, h, left[fixed..], fixed)
      case Stop(ans) => step == (st, ans) && (ans.Crash? || ans.Abort? || ans.Errno?)
      case Child(p) =>
        && (h.opcode == 1 ==> step == LookupOp(st, env, p))
        && (h.opcode == 9 ==> step == MkdirOp(st, env, p))
        && (h.opcode == 10 || h.opcode == 11 ==> step == RemoveOp(st, env, p))
        && (h.opcode == 35 ==> step == CreateOp(st, env, p, Field(left[..CREATE_IN_SIZE], 0, 4)))
  {
    hide NameOf, LookupOp, MkdirOp, RemoveOp, CreateOp;
    if h.opcode == 35 {
      StructField(View(mem, Cells(rest)), CREATE_IN_SIZE, 0, 4);
    }
  }

  /** A field read from a structure is the field of the bytes it was read from. */
  lemma StructField(left: Bytes, size: nat, at: nat, k: nat)
    requires at + k <= size <= |left|
    ensures Field(left[..size], at, k) == Field(left, at, k)
  {
    assert left[..size][at..at + k] == left[at..at + k];
  }

  // What each handler decodes, in terms of the structure bytes it reads.

  lemma FixedSeen(h: InHeader, mem: Bytes, rest: seq<Slice>, fixed: nat)
    requires Fits(h) && (h.opcode == 9 || h.opcode == 35)
    requires fixed == if h.opcode == 9 then MKDIR_IN_SIZE else CREATE_IN_SIZE
    ensures |Cells(rest)| < fixed ==> ParseOp(h, mem, rest) == Truncated
  {
  }

  lemma NodeSeen(h: InHeader, mem: Bytes, rest: seq<Slice>)
    requires Fits(h) && h.opcode in {3, 4, 18, 25, 27, 29, 30}
    ensures ParseOp(h, mem, rest) ==
              match h.opcode
              case 3 => Op.Getattr
              case 4 => Op.Setattr
              case 18 => Op.Release
              case 25 => Op.Flush
              case 27 => Op.Opendir
              case 29 => Op.Releasedir
              case _ => Op.Fsyncdir
  {
  }

  lemma OpenSeen(h: InHeader, mem: Bytes, rest: seq<Slice>)
    requires Fits(h) && h.opcode == 14
    ensures var left := View(mem, Cells(rest));
      ParseOp(h, mem, rest) ==
        if |left| < OPEN_IN_SIZE then Truncated else Op.Open(Field(left[..OPEN_IN_SIZE], 0, 4))
  {
    var left := View(mem, Cells(rest));
    if |left| >= OPEN_IN_SIZE {
      StructField(left, OPEN_IN_SIZE, 0, 4);
    }
  }

  lemma ReadSeen(h: InHeader, mem: Bytes, rest: seq<Slice>)
    requires Fits(h) && h.opcode == 15
    ensures var left := View(mem, Cells(rest));
      ParseOp(h, mem, rest) ==
        if |left| < IO_IN_SIZE then Truncated else Op.Read(Field(left[..IO_IN_SIZE], 8, 8))
  {
    var left := View(mem, Cells(rest));
    if |left| >= IO_IN_SIZE {
      StructField(left, IO_IN_SIZE, 8, 8);
    }
  }

  lemma ReaddirSeen(h: InHeader, mem: Bytes, rest: seq<Slice>)
    requires Fits(h) && h.opcode == 28
    ensures var left := View(mem, Cells(rest));
      ParseOp(h, mem, rest) ==
        Op.Readdir(if |left| < IO_IN_SIZE then None else Some(Field(left[..IO_IN_SIZE], 8, 8)))
  {
    var left := View(mem, Cells(rest));
    if |left| >= IO_IN_SIZE {
      StructField(left, IO_IN_SIZE, 8, 8);
    }
  }

  /** readdir without a complete ReadIn, on a chain too short for a header, and else. */
  lemma ReaddirSteps(st: State, msg: Msg, env: Env, mem: Bytes, ws: seq<Slice>, p: Path)
    requires msg.op.Readdir? && PathOf(st, msg.nodeid) == Some(p)
    ensures msg.op.at.None? ==> Answered(st, msg, env, mem, ws) == (st, mem, Err)
    ensures msg.op.at.Some? && |Cells(ws)| < OUT_HEADER_SIZE ==>
              Answered(st, msg, env, mem, ws) == (st, mem, Panic)
    ensures Step(st, msg, env, |Cells(ws)|) == ReaddirOp(st, env, p, msg.op.at, |Cells(ws)|)
  {
    hide ListEntries, Cells, Put;
  }

  lemma InitSeen(h: InHeader, mem: Bytes, rest: seq<Slice>, st: State, env: Env, room: nat)
    requires Fits(h) && h.opcode == 26
    ensures var left := View(mem, Cells(rest));
            var op := ParseOp(h, mem, rest);
      if |left| < INIT_IN_SIZE then op == Truncated
      else
        Step(st, Msg(h.unique, h.nodeid, op), env, room)
        == InitOp(st, Field(left[..INIT_IN_SIZE], 0, 4), Field(left[..INIT_IN_SIZE], 4, 4))
  {
    var left := View(mem, Cells(rest));
    if |left| >= INIT_IN_SIZE {
      StructField(left, INIT_IN_SIZE, 0, 4);
      StructField(left, INIT_IN_SIZE, 4, 4);
    }
  }

  /** What `write` decodes, and what `read_to_at` then gathers. */
  lemma WriteSeen(h: InHeader, mem: Bytes, rest: seq<Slice>)
    requires Fits(h) && h.opcode == 16
    ensures var left := View(mem, Cells(rest));
      if |left| < IO_IN_SIZE then ParseOp(h, mem, rest) == Truncated
      else
        var b := left[..IO_IN_SIZE];
        var offset, size := Field(b, 8, 8), Field(b, 16, 4);
        var after := AfterExact(rest, IO_IN_SIZE);
        var picked := Pick(after, size);
        && ParseOp(h, mem, rest) == Op.Write(offset, size, Payload(mem, rest, size))
        && |Cells(picked)| <= |Cells(after)|
        && Payload(mem, rest, size) ==
             if picked == [] then [] else View(mem, Cells(after))[..|Cells(picked)|]
  {
    var left := View(mem, Cells(rest));
    if |left| >= IO_IN_SIZE {
      StructField(left, IO_IN_SIZE, 8, 8);
      StructField(left, IO_IN_SIZE, 16, 4);
      var after, size := AfterExact(rest, IO_IN_SIZE), Field(left, 16, 4);
      PickCells(after, size);
      ViewPrefix(mem, Cells(after), |Cells(Pick(after, size))|);
    }
  }

  /** The messages that need no name. */
  lemma PlainStep(st: State, msg: Msg, env: Env, room: nat)
    requires NeedsNode(msg.op)
    ensures var step, op := Step(st, msg, env, room), msg.op;
      match PathOf(st, msg.nodeid)
      case None => step == (st, Errno(ENOENT))
      case Some(p) =>
        && (op.Getattr? || op.Setattr? ==> step == GetattrOp(st, env, p))
        && (op.Release? ==> step == ReleaseOp(st, env, p))
        && (op.Open? ==> step == OpenOp(st, env, p, op.flags))
        && (op.Read? ==> step == ReadOp(st, env, p, op.offset))
        && (op.Write? ==> step == WriteOp(st, env, p, op.offset, op.size, op.data))
        && (op.Readdir? ==> step == ReaddirOp(st, env, p, op.at, room))
        && (op.Flush? || op.Releasedir? || op.Fsyncdir? ==> step == (st, Reply(NoBody)))
        && (op.Opendir? ==> step == (st, Reply(OpenBody)))
  {
    hide GetattrOp, ReleaseOp, OpenOp, ReadOp, WriteOp, ReaddirOp;
  }

  /** End a request that never reached the filesystem state. */
  method Conclude(ans: Answer, unique: nat, w: Writer) returns (out: Outcome)
    requires ans.Crash? || ans.Abort? || ans.Errno?
    requires w.Valid() && w.buffer.bytesConsumed == 0
    modifies w.buffer, w.mem
    ensures (w.mem[..], out) == Emit(old(w.mem[..]), old(w.buffer.buffers), unique, ans)
  {
    match ans
    case Crash => return Panic;
    case Abort => return Err;
    case Errno(code) => out := ReplyError(unique, w, code);
  }

  class Filesystem {
    const norm: Path -> Path
    var openedFiles: seq<OpenedFile>
    var openedFilesMap: map<Path, nat>
    var openedFilesWriter: map<Path, InnerWriter>
    var objects: map<Path, Bytes>

    function Abs(): State
      reads this
    {
      State(norm, openedFiles, openedFilesMap, openedFilesWriter, objects)
    }

    constructor (norm: Path -> Path, objects: map<Path, Bytes>)
      ensures Abs() == Empty(norm, objects)
    {
      this.norm := norm;
      this.objects := objects;
      openedFiles := [];
      openedFilesMap := map[];
      openedFilesWriter := map[];
    }

    // ---- slab, map and backend --------------------------------------------

    method GetPath(nodeid: nat) returns (p: Option<Path>)
      ensures p == PathOf(Abs(), nodeid)
    {
      p := if nodeid < |openedFiles| then Some(openedFiles[nodeid].path) else None;
    }

    method InsertFile(p: Path, attr: Attr) returns (inode: nat)
      modifies this`openedFiles
      ensures inode == |old(openedFiles)|
      ensures openedFiles == old(openedFiles) + [OpenedFile(p, attr)]
    {
      inode := |openedFiles|;
      openedFiles := openedFiles + [OpenedFile(p, attr)];
    }

    method DoGetMetadata(p: Path, env: Env) returns (r: Option<Attr>)
      modifies this`openedFiles, this`openedFilesMap
      ensures (Abs(), r) == GetMetadata(old(Abs()), env, p)
    {
      match StatPath(Abs(), env, p)
      case None => return None;
      case Some(s) =>
        if p in openedFilesMap {
          return Some(Attr(openedFilesMap[p], s.size, s.isDir));
        }
        var inode := InsertFile(p, Attr(0, s.size, s.isDir));
        openedFilesMap := openedFilesMap[p := inode];
        return Some(Attr(inode, s.size, s.isDir));
    }

    method DoSetWriter(p: Path, flags: nat, env: Env) returns (ok: bool)
      modifies this`openedFilesWriter
      ensures (Abs(), ok) == SetWriter(old(Abs()), env, p, flags)
    {
      match CheckFlags(env, flags)
      case None => return false;
      case Some((isWrite, isAppend)) =>
        if !isWrite {
          return true;
        }
        if !env.openOk || env.isDir {
          return false;
        }
        var base, written := [], 0;
        if isAppend {
          match StatPath(Abs(), env, p)
          case None => return false;
          case Some(s) => base, written := objects[norm(p)], s.size;
        }
        openedFilesWriter := openedFilesWriter[p := InnerWriter(base, [], written)];
        return true;
    }

    method DoReleaseWriter(p: Path, env: Env) returns (ok: bool)
      modifies this`openedFilesWriter, this`objects
      ensures (Abs(), ok) == ReleaseWriter(old(Abs()), env, p)
    {
      if p !in openedFilesWriter || !env.closeOk {
        return false;
      }
      var w := openedFilesWriter[p];
      objects := objects[norm(p) := w.base + w.data];
      openedFilesWriter := openedFilesWriter - {p};
      return true;
    }

    method DoDelete(p: Path, env: Env) returns (ok: bool)
      modifies this`objects
      ensures (Abs(), ok) == Delete(old(Abs()), env, p)
    {
      if !env.deleteOk {
        return false;
      }
      objects := objects - {norm(p)};
      return true;
    }

    method DoWrite(p: Path, offset: nat, data: Bytes, env: Env) returns (ok: bool)
      modifies this`openedFilesWriter
      ensures (Abs(), ok) == WritePath(old(Abs()), env, p, offset, data)
    {
      if p !in openedFilesWriter {
        return false;
      }
      var w := openedFilesWriter[p];
      if offset != w.written || !env.writeOk {
        return false;
      }
      openedFilesWriter := openedFilesWriter[p := InnerWriter(w.base, w.data + data, w.written + |data|)];
      return true;
    }

    /** File one listed child. */
    method ListOne(p: Path, e: Listed, i: nat) returns (entry: DirEntry)
      modifies this`openedFiles, this`openedFilesMap
      ensures (Abs(), entry) == ListEntry(old(Abs()), p, e, i)
    {
      var key := ListedKey(p, e.name);
      var inode: nat;
      if key in openedFilesMap {
        inode := openedFilesMap[key];
      } else {
        inode := InsertFile(key, Attr(0, e.size, e.isDir));
        openedFilesMap := openedFilesMap[key := inode];
      }
      var type_ := if e.isDir then DIR_TYPE else FILE_TYPE;
      entry := DirEntry(inode, i + 1, type_, ShownName(e.name));
    }

    method DoReaddir(p: Path, es: seq<Listed>) returns (entries: seq<DirEntry>)
      modifies this`openedFiles, this`openedFilesMap
      ensures (Abs(), entries) == ListEntries(old(Abs()), p, es, 0)
    {
      ghost var st0 := Abs();
      entries := [];
      var i := 0;
      assert [] + ListEntries(st0, p, es, 0).1 == ListEntries(st0, p, es, 0).1;
      while i < |es|
        invariant 0 <= i <= |es|
        invariant ListingTodo(st0, Abs(), p, es, i, entries)
      {
        ListingNext(st0, Abs(), p, es, i, entries);
        var entry := ListOne(p, es[i], i);
        entries := entries + [entry];
        i := i + 1;
      }
      assert entries + [] == entries;
    }

    // ---- handlers ---------------------------------------------------------

    /** Read the child's name and join it to the path of the request's node. */
    method ResolveChild(h: InHeader, fixed: nat, r: Reader) returns (c: Resolved)
      requires r.Valid()
      modifies r.buffer
      ensures c == ChildOf(Abs(), h, old(r.Left()), fixed)
    {
      var name := ReadName(h, fixed, r);
      match name
      case NamePanic => return Stop(Crash);
      case NameShort => return Stop(Abort);
      case NameBad => return Stop(Errno(EIO));
      case NameOk(n) =>
        var parent := GetPath(h.nodeid);
        match parent
        case None => return Stop(Errno(ENOENT));
        case Some(p) => return Child(Join(p, n));
    }

    method Lookup(h: InHeader, r: Reader, w: Writer, env: Env) returns (out: Outcome)
      requires Wired(r, w) && Fits(h) && h.opcode == 1
      modifies this, r.buffer, w.buffer, w.mem
      ensures (Abs(), w.mem[..], out) ==
                Answered(old(Abs()), old(Seen(h, r)), env, old(w.mem[..]), old(w.buffer.buffers))
    {
      hide ParseOp, Answered, Step, Emit, Field, BodyParts, Cells, View, Within, OnNode, SetWriter, GetMetadata;
      ghost var st, msg, mem, ws := Abs(), Seen(h, r), w.mem[..], w.buffer.buffers;
      NamedStep(st, h, mem, r.buffer.buffers, 0, env, |Cells(ws)|);
      assert r.Left()[0..] == r.Left();
      var c := ResolveChild(h, 0, r);
      match c
      case Stop(ans) =>
        Concludes(st, msg, env, mem, ws, Abs(), ans);
        out := Conclude(ans, h.unique, w);
      case Child(p) =>
        var attr := DoGetMetadata(p, env);
        if attr.None? {
          Concludes(st, msg, env, mem, ws, Abs(), Errno(ENOENT));
          out := ReplyError(h.unique, w, ENOENT);
        } else {
          Concludes(st, msg, env, mem, ws, Abs(), Reply(EntryBody(attr.value)));
          out := ReplyOk(EntryBody(attr.value), BodyParts(EntryBody(attr.value)), h.unique, w);
        }
    }

    method Getattr(h: InHeader, r: Reader, w: Writer, env: Env) returns (out: Outcome)
      requires Wired(r, w) && Fits(h) && h.opcode in {3, 4}
      modifies this, r.buffer, w.buffer, w.mem
      ensures (Abs(), w.mem[..], out) ==
                Answered(old(Abs()), old(Seen(h, r)), env, old(w.mem[..]), old(w.buffer.buffers))
    {
      hide ParseOp, Answered, Step, Emit, Field, BodyParts, Cells, View, Within, OnNode, SetWriter, GetMetadata;
      ghost var st, msg, mem, ws := Abs(), Seen(h, r), w.mem[..], w.buffer.buffers;
      NodeSeen(h, mem, r.buffer.buffers);
      PlainStep(st, msg, env, |Cells(ws)|);
      var path := GetPath(h.nodeid);
      if path.None? {
        Concludes(st, msg, env, mem, ws, Abs(), Errno(ENOENT));
        out := ReplyError(h.unique, w, ENOENT);
        return;
      }
      var attr := DoGetMetadata(path.value, env);
      if attr.None? {
        Concludes(st, msg, env, mem, ws, Abs(), Errno(ENOENT));
        out := ReplyError(h.unique, w, ENOENT);
        return;
      }
      Concludes(st, msg, env, mem, ws, Abs(), Reply(AttrBody(attr.value)));
      out := ReplyOk(AttrBody(attr.value), BodyParts(AttrBody(attr.value)), h.unique, w);
    }

    method Create(h: InHeader, r: Reader, w: Writer, env: Env) returns (out: Outcome)
      requires Wired(r, w) && Fits(h) && h.opcode == 35
      modifies this, r.buffer, w.buffer, w.mem
      ensures (Abs(), w.mem[..], out) ==
                Answered(old(Abs()), old(Seen(h, r)), env, old(w.mem[..]), old(w.buffer.buffers))
    {
      hide ParseOp, Answered, Step, Emit, Field, BodyParts, Cells, View, Within, OnNode, SetWriter, GetMetadata;
      ghost var st, msg, mem, ws := Abs(), Seen(h, r), w.mem[..], w.buffer.buffers;
      FixedSeen(h, mem, r.buffer.buffers, CREATE_IN_SIZE);
      var createIn := r.ReadObj(CREATE_IN_SIZE);
      if createIn.None? {
        AbortStep(st, msg, env, mem, ws);
        return Err;
      }
      var flags := Field(createIn.value, 0, 4);
      NamedStep(st, h, mem, old(r.buffer.buffers), CREATE_IN_SIZE, env, |Cells(ws)|);
      var c := ResolveChild(h, CREATE_IN_SIZE, r);
      match c
      case Stop(ans) =>
        Concludes(st, msg, env, mem, ws, Abs(), ans);
        out := Conclude(ans, h.unique, w);
      case Child(p) =>
        var inode := InsertFile(p, Attr(0, 0, false));
        openedFilesMap := openedFilesMap[p := inode];
        assert Abs() == Insert(st, p, Attr(0, 0, false));
        var ok := DoSetWriter(p, flags, env);
        if !ok {
          Concludes(st, msg, env, mem, ws, Abs(), Errno(ENOENT));
          out := ReplyError(h.unique, w, ENOENT);
        } else {
          ghost var body := CreateBody(Attr(inode, 0, false));
          Concludes(st, msg, env, mem, ws, Abs(), Reply(body));
          out := ReplyOk(body, BodyParts(CreateBody(Attr(inode, 0, false))), h.unique, w);
        }
    }

    /** unlink and rmdir */
    method Remove(h: InHeader, r: Reader, w: Writer, env: Env) returns (out: Outcome)
      requires Wired(r, w) && Fits(h) && h.opcode in {10, 11}
      modifies this, r.buffer, w.buffer, w.mem
      ensures (Abs(), w.mem[..], out) ==
                Answered(old(Abs()), old(Seen(h, r)), env, old(w.mem[..]), old(w.buffer.buffers))
    {
      hide ParseOp, Answered, Step, Emit, Field, BodyParts, Cells, View, Within, OnNode, SetWriter, GetMetadata;
      ghost var st, msg, mem, ws := Abs(), Seen(h, r), w.mem[..], w.buffer.buffers;
      NamedStep(st, h, mem, r.buffer.buffers, 0, env, |Cells(ws)|);
      assert r.Left()[0..] == r.Left();
      var c := ResolveChild(h, 0, r);
      match c
      case Stop(ans) =>
        Concludes(st, msg, env, mem, ws, Abs(), ans);
        out := Conclude(ans, h.unique, w);
      case Child(p) =>
        var ok := DoDelete(p, env);
        if !ok {
          Concludes(st, msg, env, mem, ws, Abs(), Errno(ENOENT));
          out := ReplyError(h.unique, w, ENOENT);
        } else {
          openedFilesMap := openedFilesMap - {p};
          Concludes(st, msg, env, mem, ws, Abs(), Reply(NoBody));
          out := ReplyOk(NoBody, BodyParts(NoBody), h.unique, w);
        }
    }

    method Mkdir(h: InHeader, r: Reader, w: Writer, env: Env) returns (out: Outcome)
      requires Wired(r, w) && Fits(h) && h.opcode == 9
      modifies this, r.buffer, w.buffer, w.mem
      ensures (Abs(), w.mem[..], out) ==
                Answered(old(Abs()), old(Seen(h, r)), env, old(w.mem[..]), old(w.buffer.buffers))
    {
      hide ParseOp, Answered, Step, Emit, Field, BodyParts, Cells, View, Within, OnNode, SetWriter, GetMetadata;
      ghost var st, msg, mem, ws := Abs(), Seen(h, r), w.mem[..], w.buffer.buffers;
      FixedSeen(h, mem, r.buffer.buffers, MKDIR_IN_SIZE);
      var mkdirIn := r.ReadObj(MKDIR_IN_SIZE);
      if mkdirIn.None? {
        AbortStep(st, msg, env, mem, ws);
        return Err;
      }
      NamedStep(st, h, mem, old(r.buffer.buffers), MKDIR_IN_SIZE, env, |Cells(ws)|);
      var c := ResolveChild(h, MKDIR_IN_SIZE, r);
      match c
      case Stop(ans) =>
        Concludes(st, msg, env, mem, ws, Abs(), ans);
        out := Conclude(ans, h.unique, w);
      case Child(p) =>
        var inode := InsertFile(p, Attr(0, 0, true));
        openedFilesMap := openedFilesMap[p := inode];
        assert Abs() == Insert(st, p, Attr(0, 0, true));
        if !env.mkdirOk {
          Concludes(st, msg, env, mem, ws, Abs(), Errno(ENOENT));
          out := ReplyError(h.unique, w, ENOENT);
        } else {
          ghost var body := EntryBody(Attr(inode, 0, true));
          Concludes(st, msg, env, mem, ws, Abs(), Reply(body));
          out := ReplyOk(body, BodyParts(EntryBody(Attr(inode, 0, true))), h.unique, w);
        }
    }

    method Release(h: InHeader, r: Reader, w: Writer, env: Env) returns (out: Outcome)
      requires Wired(r, w) && Fits(h) && h.opcode == 18
      modifies this, r.buffer, w.buffer, w.mem
      ensures (Abs(), w.mem[..], out) ==
                Answered(old(Abs()), old(Seen(h, r)), env, old(w.mem[..]), old(w.buffer.buffers))
    {
      hide ParseOp, Answered, Step, Emit, Field, BodyParts, Cells, View, Within, OnNode, SetWriter, GetMetadata;
      ghost var st, msg, mem, ws := Abs(), Seen(h, r), w.mem[..], w.buffer.buffers;
      NodeSeen(h, mem, r.buffer.buffers);
      PlainStep(st, msg, env, |Cells(ws)|);
      var path := GetPath(h.nodeid);
      if path.None? {
        Concludes(st, msg, env, mem, ws, Abs(), Errno(ENOENT));
        out := ReplyError(h.unique, w, ENOENT);
        return;
      }
      var ok := DoReleaseWriter(path.value, env);
      if !ok {
        Concludes(st, msg, env, mem, ws, Abs(), Errno(EIO));
        out := ReplyError(h.unique, w, EIO);
        return;
      }
      Concludes(st, msg, env, mem, ws, Abs(), Reply(NoBody));
      out := ReplyOk(NoBody, BodyParts(NoBody), h.unique, w);
    }

    /** flush, opendir, releasedir and fsyncdir only check that the node exists. */
    method Acknowledge(h: InHeader, r: Reader, w: Writer, env: Env) returns (out: Outcome)
      requires Wired(r, w) && Fits(h) && h.opcode in {25, 27, 29, 30}
      modifies this, r.buffer, w.buffer, w.mem
      ensures (Abs(), w.mem[..], out) ==
                Answered(old(Abs()), old(Seen(h, r)), env, old(w.mem[..]), old(w.buffer.buffers))
    {
      hide ParseOp, Answered, Step, Emit, Field, BodyParts, Cells, View, Within, OnNode, SetWriter, GetMetadata;
      ghost var st, msg, mem, ws := Abs(), Seen(h, r), w.mem[..], w.buffer.buffers;
      NodeSeen(h, mem, r.buffer.buffers);
      PlainStep(st, msg, env, |Cells(ws)|);
      var path := GetPath(h.nodeid);
      if path.None? {
        Concludes(st, msg, env, mem, ws, Abs(), Errno(ENOENT));
        out := ReplyError(h.unique, w, ENOENT);
        return;
      }
      if h.opcode == 27 {
        Concludes(st, msg, env, mem, ws, Abs(), Reply(OpenBody));
        out := ReplyOk(OpenBody, BodyParts(OpenBody), h.unique, w);
      } else {
        Concludes(st, msg, env, mem, ws, Abs(), Reply(NoBody));
        out := ReplyOk(NoBody, BodyParts(NoBody), h.unique, w);
      }
    }

    method Open(h: InHeader, r: Reader, w: Writer, env: Env) returns (out: Outcome)
      requires Wired(r, w) && Fits(h) && h.opcode == 14
      modifies this, r.buffer, w.buffer, w.mem
      ensures (Abs(), w.mem[..], out) ==
                Answered(old(Abs()), old(Seen(h, r)), env, old(w.mem[..]), old(w.buffer.buffers))
    {
      hide ParseOp, Answered, Step, Emit, Field, BodyParts, Cells, View, Within, OnNode, SetWriter, GetMetadata;
      ghost var st, msg, mem, ws := Abs(), Seen(h, r), w.mem[..], w.buffer.buffers;
      OpenSeen(h, mem, r.buffer.buffers);
      var openIn := r.ReadObj(OPEN_IN_SIZE);
      if openIn.None? {
        AbortStep(st, msg, env, mem, ws);
        return Err;
      }
      var flags := Field(openIn.value, 0, 4);
      PlainStep(st, msg, env, |Cells(ws)|);
      var path := GetPath(h.nodeid);
      if path.None? {
        Concludes(st, msg, env, mem, ws, Abs(), Errno(ENOENT));
        out := ReplyError(h.unique, w, ENOENT);
        return;
      }
      var ok := DoSetWriter(path.value, flags, env);
      if !ok {
        Concludes(st, msg, env, mem, ws, Abs(), Errno(ENOENT));
        out := ReplyError(h.unique, w, ENOENT);
        return;
      }
      Concludes(st, msg, env, mem, ws, Abs(), Reply(OpenBody));
      out := ReplyOk(OpenBody, BodyParts(OpenBody), h.unique, w);
    }

    method Write(h: InHeader, r: Reader, w: Writer, env: Env) returns (out: Outcome)
      requires Wired(r, w) && Fits(h) && h.opcode == 16
      modifies this, r.buffer, w.buffer, w.mem
      ensures (Abs(), w.mem[..], out) ==
                Answered(old(Abs()), old(Seen(h, r)), env, old(w.mem[..]), old(w.buffer.buffers))
    {
      hide ParseOp, Answered, Step, Emit, Field, Payload, BodyParts, Cells, View, Within, OnNode, WritePath;
      ghost var st, msg, mem, ws := Abs(), Seen(h, r), w.mem[..], w.buffer.buffers;
      var writeIn := r.ReadObj(IO_IN_SIZE);
      WriteSeen(h, mem, old(r.buffer.buffers));
      if writeIn.None? {
        AbortStep(st, msg, env, mem, ws);
        return Err;
      }
      var offset, size := Field(writeIn.value, 8, 8), Field(writeIn.value, 16, 4);
      PlainStep(st, msg, env, |Cells(ws)|);
      var path := GetPath(h.nodeid);
      if path.None? {
        Concludes(st, msg, env, mem, ws, Abs(), Errno(ENOENT));
        out := ReplyError(h.unique, w, ENOENT);
        return;
      }
      var buffer := new BufferWrapper([]);
      var _ := r.ReadToAt(buffer, size);
      var ok := DoWrite(path.value, offset, buffer.buffer, env);
      if !ok {
        Concludes(st, msg, env, mem, ws, Abs(), Errno(EIO));
        out := ReplyError(h.unique, w, EIO);
        return;
      }
      Concludes(st, msg, env, mem, ws, Abs(), Reply(WriteBody(size)));
      out := ReplyOk(WriteBody(size), BodyParts(WriteBody(size)), h.unique, w);
    }

    method Init(h: InHeader, r: Reader, w: Writer, env: Env) returns (out: Outcome)
      requires Wired(r, w) && Fits(h) && h.opcode == 26
      modifies this, r.buffer, w.buffer, w.mem
      ensures (Abs(), w.mem[..], out) ==
                Answered(old(Abs()), old(Seen(h, r)), env, old(w.mem[..]), old(w.buffer.buffers))
    {
      hide ParseOp, Answered, Step, Emit, Field, BodyParts, Cells, View, Within, OnNode, SetWriter, GetMetadata;
      ghost var st, msg, mem, ws := Abs(), Seen(h, r), w.mem[..], w.buffer.buffers;
      InitSeen(h, mem, r.buffer.buffers, st, env, |Cells(ws)|);
      var initIn := r.ReadObj(INIT_IN_SIZE);
      if initIn.None? {
        AbortStep(st, msg, env, mem, ws);
        return Err;
      }
      var major, minor := Field(initIn.value, 0, 4), Field(initIn.value, 4, 4);
      if major != KERNEL_VERSION || minor < MIN_KERNEL_MINOR_VERSION {
        Concludes(st, msg, env, mem, ws, Abs(), Errno(EIO));
        out := ReplyError(h.unique, w, EIO);
        return;
      }
      var root := OpenedFile(ROOT, Attr(DEFAULT_ROOT_DIR_INODE, 0, true));
      openedFiles := openedFiles + [root];
      openedFiles := openedFiles + [root];
      openedFilesMap := openedFilesMap[ROOT := DEFAULT_ROOT_DIR_INODE];
      Concludes(st, msg, env, mem, ws, Abs(), Reply(InitBody));
      out := ReplyOk(InitBody, BodyParts(InitBody), h.unique, w);
    }

    /** The data goes out behind the header before the header does; what does not fit,
        or lies behind an empty slice, is dropped silently. */
    method Read(h: InHeader, r: Reader, w: Writer, env: Env) returns (out: Outcome)
      requires Wired(r, w) && Fits(h) && h.opcode == 15
      modifies this, r.buffer, w.buffer, w.mem
      ensures (Abs(), w.mem[..], out) ==
                Answered(old(Abs()), old(Seen(h, r)), env, old(w.mem[..]), old(w.buffer.buffers))
    {
      hide ParseOp, Answered, Step, Emit, Field, BodyParts, Cells, View, Within, OnNode, SetWriter, GetMetadata;
      ghost var st, msg, mem, ws := Abs(), Seen(h, r), w.mem[..], w.buffer.buffers;
      ReadSeen(h, mem, r.buffer.buffers);
      var readIn := r.ReadObj(IO_IN_SIZE);
      if readIn.None? {
        AbortStep(st, msg, env, mem, ws);
        return Err;
      }
      var offset := Field(readIn.value, 8, 8);
      PlainStep(st, msg, env, |Cells(ws)|);
      var path := GetPath(h.nodeid);
      if path.None? {
        Concludes(st, msg, env, mem, ws, Abs(), Errno(ENOENT));
        out := ReplyError(h.unique, w, ENOENT);
        return;
      }
      var data := ReadPath(Abs(), env, path.value, offset);
      if data.None? {
        Concludes(st, msg, env, mem, ws, Abs(), Errno(ENOENT));
        out := ReplyError(h.unique, w, ENOENT);
        return;
      }
      Concludes(st, msg, env, mem, ws, Abs(), Data(data.value));
      out := SendData(h.unique, w, data.value);
    }

    method Readdir(h: InHeader, r: Reader, w: Writer, env: Env) returns (out: Outcome)
      requires Wired(r, w) && Fits(h) && h.opcode == 28
      modifies this, r.buffer, w.buffer, w.mem
      ensures (Abs(), w.mem[..], out) ==
                Answered(old(Abs()), old(Seen(h, r)), env, old(w.mem[..]), old(w.buffer.buffers))
    {
      hide ReaddirOp, ParseOp, Answered, Step, Emit, Field, BodyParts, Cells, View, Within, OnNode;
      ghost var st, msg, mem, ws := Abs(), Seen(h, r), w.mem[..], w.buffer.buffers;
      ReaddirSeen(h, mem, r.buffer.buffers);
      PlainStep(st, msg, env, |Cells(ws)|);
      var path := GetPath(h.nodeid);
      if path.None? {
        Concludes(st, msg, env, mem, ws, Abs(), Errno(ENOENT));
        out := ReplyError(h.unique, w, ENOENT);
        return;
      }
      var readIn := r.ReadObj(IO_IN_SIZE);
      if readIn.None? {
        ReaddirSteps(st, msg, env, mem, ws, path.value);
        return Err;
      }
      var offset := Field(readIn.value, 8, 8);
      SplitCells(ws, OUT_HEADER_SIZE);
      ReaddirSteps(st, msg, env, mem, ws, path.value);
      var tail := w.SplitAt(OUT_HEADER_SIZE);
      if tail.None? {
        return Panic;
      }
      ghost var (st', ans) := ReaddirOp(st, env, path.value, Some(offset), |Cells(ws)|);
      Concludes(st, msg, env, mem, ws, st', ans);
      out := AnswerReaddir(h.unique, path.value, offset, w, tail.value, env, ws);
    }

    /** `readdir` after the reply chain has been split at 16. */
    method AnswerReaddir(unique: nat, path: Path, offset: nat, w: Writer, tail: Writer, env: Env, ghost ws: seq<Slice>)
      returns (out: Outcome)
      requires w.Valid() && w.buffer.bytesConsumed == 0
      requires tail.Valid() && tail.mem == w.mem && tail.buffer != w.buffer
      requires OUT_HEADER_SIZE <= |Cells(ws)| && w.Room() == Cells(ws)[..OUT_HEADER_SIZE]
      requires Split(ws, OUT_HEADER_SIZE) == Some((w.buffer.buffers, tail.buffer.buffers))
      modifies this`openedFiles, this`openedFilesMap, w.buffer, tail.buffer, w.mem
      ensures var (st', ans) := ReaddirOp(old(Abs()), env, path, Some(offset), |Cells(ws)|);
        && Abs() == st'
        && w.mem[..] == Emit(old(w.mem[..]), ws, unique, ans).0
        && out == Emit(old(w.mem[..]), ws, unique, ans).1
    {
      hide Cells, Put, Dirents, OutHeader, ListEntries, BodyBytes;
      if env.listing.None? {
        FrontError(w.mem[..], ws, w.buffer.buffers, unique, ENOENT);
        out := ReplyError(unique, w, ENOENT);
        return;
      }
      var entries := DoReaddir(path, env.listing.value);
      out := SendListing(unique, w, tail, offset, entries);
    }

    // ---- the dispatcher ---------------------------------------------------

    /** Every message, for every segmentation of request and reply: the tables, guest
        memory and the outcome are those of the specification. */
    method HandleMessage(r: Reader, w: Writer, env: Env) returns (out: Outcome)
      requires Wired(r, w)
      modifies this, r.buffer, w.buffer, w.mem
      ensures (Abs(), w.mem[..], out) ==
                Serve(old(Abs()), env, old(w.mem[..]), old(r.buffer.buffers), old(w.buffer.buffers))
    {
      ghost var st, mem, rs, ws := Abs(), w.mem[..], r.buffer.buffers, w.buffer.buffers;
      var bytes := r.ReadObj(IN_HEADER_SIZE);
      if bytes.None? {
        Concludes(st, Msg(0, 0, Truncated), env, mem, ws, st, Abort);
        return Err;
      }
      var h := ParseHeader(bytes.value);
      ghost var msg := Seen(h, r);
      assert msg == Parse(mem, rs);
      if h.len > MAX_BUFFER_SIZE + BUFFER_HEADER_SIZE {
        Concludes(st, msg, env, mem, ws, st, Errno(EIO));
        out := ReplyError(h.unique, w, EIO);
        return;
      }
      out := Dispatch(h, r, w, env);
    }

    method Dispatch(h: InHeader, r: Reader, w: Writer, env: Env) returns (out: Outcome)
      requires Wired(r, w) && Fits(h)
      modifies this, r.buffer, w.buffer, w.mem
      ensures (Abs(), w.mem[..], out) ==
                Answered(old(Abs()), old(Seen(h, r)), env, old(w.mem[..]), old(w.buffer.buffers))
    {
      match h.opcode
      case 26 => out := Init(h, r, w, env);
      case 38 => out := Ok(0);
      case 2 => out := Ok(0);
      case 1 => out := Lookup(h, r, w, env);
      case 3 => out := Getattr(h, r, w, env);
      case 4 => out := Getattr(h, r, w, env);
      case 35 => out := Create(h, r, w, env);
      case 10 => out := Remove(h, r, w, env);
      case 18 => out := Release(h, r, w, env);
      case 25 => out := Acknowledge(h, r, w, env);
      case 14 => out := Open(h, r, w, env);
      case 15 => out := Read(h, r, w, env);
      case 16 => out := Write(h, r, w, env);
      case 9 => out := Mkdir(h, r, w, env);
      case 11 => out := Remove(h, r, w, env);
      case 29 => out := Acknowledge(h, r, w, env);
      case 30 => out := Acknowledge(h, r, w, env);
      case 27 => out := Acknowledge(h, r, w, env);
      case 28 => out := Readdir(h, r, w, env);
      case _ => out := ReplyError(h.unique, w, ENOSYS);
    }
  }

  /** An error sent through the first 16 cells is an error sent through the chain. */
  lemma FrontError(mem: Bytes, ws: seq<Slice>, front: seq<Slice>, unique: nat, code: nat)
    requires OUT_HEADER_SIZE <= |Cells(ws)| && Cells(front) == Cells(ws)[..OUT_HEADER_SIZE]
    ensures Emit(mem, front, unique, Errno(code)) == Emit(mem, ws, unique, Errno(code))
  {
    var header := OutHeader(OUT_HEADER_SIZE, code, unique);
    assert header[..|header|] == header;
    assert Cells(ws) == Cells(front) + Cells(ws)[OUT_HEADER_SIZE..];
    PutPrefix(mem, Cells(front), Cells(ws)[OUT_HEADER_SIZE..], header);
  }

  /** `write_all` of the reply header through the 16 cells kept for it. */
  method SendHeader(w: Writer, header: Bytes)
    requires w.Valid() && |w.Room()| == OUT_HEADER_SIZE == |header|
    modifies w.buffer, w.mem
    ensures w.mem[..] == Put(old(w.mem[..]), old(w.Room()), header)
  {
    assert header[..|header|] == header;
    var ok := w.WriteAll(header);
  }

  /** The end of `read`: split, payload, header. */
  method SendData(unique: nat, w: Writer, data: Bytes) returns (out: Outcome)
    requires w.Valid() && w.buffer.bytesConsumed == 0
    modifies w.buffer, w.mem
    ensures (w.mem[..], out) == Emit(old(w.mem[..]), old(w.buffer.buffers), unique, Data(data))
  {
    SplitCells(w.buffer.buffers, OUT_HEADER_SIZE);
    var tail := w.SplitAt(OUT_HEADER_SIZE);
    if tail.None? {
      return Panic;
    }
    var dataWriter := tail.value;
    var buffer := new BufferWrapper(data);
    var _ := dataWriter.WriteFromAt(buffer, |data|);
    SendHeader(w, OutHeader(OUT_HEADER_SIZE + |data|, 0, unique));
    return Ok((OUT_HEADER_SIZE + |data|) % U32);
  }

  /** The end of `readdir`: records through the tail, header through the front. */
  method SendListing(unique: nat, w: Writer, tail: Writer, offset: nat, entries: seq<DirEntry>) returns (out: Outcome)
    requires w.Valid() && w.buffer.bytesConsumed == 0 && |w.Room()| == OUT_HEADER_SIZE
    requires tail.Valid() && tail.mem == w.mem && tail.buffer != w.buffer
    modifies w.buffer, tail.buffer, w.mem
    ensures (w.mem[..], out) ==
              EmitListing(old(w.mem[..]), old(w.buffer.buffers), old(tail.buffer.buffers), unique, offset, entries)
  {
    hide Put;
    hide OutHeader;
    hide Dirents;
    hide Cells;
    if offset >= |entries| {
      SendHeader(w, OutHeader(OUT_HEADER_SIZE, 0, unique));
      return Ok(OUT_HEADER_SIZE);
    }
    var total := SendRecords(tail, entries);
    if total.None? {
      HeaderAlone(w.mem[..], w.buffer.buffers, unique);
      out := ReplyError(unique, w, EIO);
      return;
    }
    SendHeader(w, OutHeader(OUT_HEADER_SIZE + total.value, 0, unique));
    return Ok((OUT_HEADER_SIZE + total.value) % U32);
  }

  lemma HeaderAlone(mem: Bytes, front: seq<Slice>, unique: nat)
    requires |Cells(front)| == OUT_HEADER_SIZE
    ensures Emit(mem, front, unique, Errno(EIO)) ==
              (Put(mem, Cells(front), OutHeader(OUT_HEADER_SIZE, EIO, unique)), Ok(OUT_HEADER_SIZE))
  {
    var header := OutHeader(OUT_HEADER_SIZE, EIO, unique);
    assert header[..|header|] == header;
  }

  /** The record loop of `readdir`. */
  method SendRecords(cursor: Writer, entries: seq<DirEntry>) returns (total: Option<nat>)
    requires cursor.Valid()
    modifies cursor.buffer, cursor.mem
    ensures var stream := Dirents(entries);
      && cursor.mem[..] == WriteSome(old(cursor.mem[..]), old(cursor.Room()), stream)
      && total == if |stream| <= |old(cursor.Room())| then Some(|stream|) else None
  {
    ghost var mem0, cells := cursor.mem[..], cursor.Room();
    NothingWritten(cursor);
    var written := 0;
    var i := 0;
    assert entries[..0] == [];
    while i < |entries|
      invariant 0 <= i <= |entries|
      invariant Wrote(cursor, mem0, cells, Dirents(entries[..i])) && written == |Dirents(entries[..i])|
    {
      RecordNext(mem0, cells, entries, i);
      hide Wrote;
      hide WriteSome;
      hide Dirents;
      var len := ReplyAddDirEntry(cursor, entries[i], mem0, cells, Dirents(entries[..i]));
      if len.None? {
        return None;
      }
      written := written + len.value;
      i := i + 1;
    }
    assert entries[..i] == entries;
    return Some(written);
  }

  lemma RecordNext(mem: Bytes, cells: seq<nat>, entries: seq<DirEntry>, i: nat)
    requires i < |entries|
    ensures Dirents(entries[..i + 1]) == Dirents(entries[..i]) + Dirent(entries[i])
    ensures |Dirents(entries[..i + 1])| <= |Dirents(entries)|
    ensures |Dirents(entries[..i + 1])| > |cells| ==>
              WriteSome(mem, cells, Dirents(entries[..i + 1])) == WriteSome(mem, cells, Dirents(entries))
  {
    assert entries[..i + 1] == entries[..i] + [entries[i]];
    DirentsAppend(entries[..i], [entries[i]]);
    assert Dirents([entries[i]]) == Dirent(entries[i]) + [];
    assert entries == entries[..i + 1] + entries[i + 1..];
    DirentsAppend(entries[..i + 1], entries[i + 1..]);
    WriteSomeMore(mem, cells, Dirents(entries[..i + 1]), Dirents(entries[i + 1..]));
  }

  ghost predicate ListingTodo(st0: State, st: State, p: Path, es: seq<Listed>, i: nat, done: seq<DirEntry>) {
    ListEntries(st0, p, es, 0) == (ListEntries(st, p, es, i).0, done + ListEntries(st, p, es, i).1)
  }

  lemma ListingNext(st0: State, st: State, p: Path, es: seq<Listed>, i: nat, done: seq<DirEntry>)
    requires i < |es| && ListingTodo(st0, st, p, es, i, done)
    ensures var (st', d) := ListEntry(st, p, es[i], i);
      ListingTodo(st0, st', p, es, i + 1, done + [d])
  {
    var (st', d) := ListEntry(st, p, es[i], i);
    assert done + ([d] + ListEntries(st', p, es, i + 1).1) == done + [d] + ListEntries(st', p, es, i + 1).1;
  }
}
