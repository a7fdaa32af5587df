/** The filesystem as a state machine: one function per handler, from a state, a
    request and the backend's answers to a new state and an abstract reply.
    Backend calls may fail at will; a failed call has no effect on the backend. */
module FsModel {
  import opened GuestMemory
  import opened Chain
  import opened Messages
  import opened Requests

  type Path = Bytes

  const EIO: nat := 5
  const ENOENT: nat := 2
  const ENOSYS: nat := 38
  const DEFAULT_ROOT_DIR_INODE: nat := 1
  const SLASH: u8 := 47
  const ROOT: Path := [SLASH]

  datatype OpenedFile = OpenedFile(path: Path, metadata: Attr)

  /** An open backend writer: what the object held when it was opened for appending
      (nothing otherwise), what has been written through it since, and the position
      the filesystem expects the next write at. */
  datatype InnerWriter = InnerWriter(base: Bytes, data: Bytes, written: nat)

  /** `norm` is the backend's mapping from path strings to objects: different path
      strings may name one object.  `objects` holds committed contents. */
  datatype State = State(
    norm: Path -> Path,
    slab: seq<OpenedFile>,
    inodes: map<Path, nat>,
    writers: map<Path, InnerWriter>,
    objects: map<Path, Bytes>)

  datatype Listed = Listed(name: Bytes, isDir: bool, size: nat)

  /** The backend's answers while one message is handled. */
  datatype Env = Env(
    capWrite: bool, capAppend: bool,
    statOk: bool, isDir: bool, dirSize: nat,
    openOk: bool, writeOk: bool, closeOk: bool, deleteOk: bool, mkdirOk: bool,
    readOk: bool, emptyPastEnd: bool,
    listing: Option<seq<Listed>>)

  /** Silent: Ok(0), nothing written.  Abort: Err.  Crash: a panic. */
  datatype Answer =
    | Silent
    | Abort
    | Crash
    | Errno(code: nat)
    | Reply(body: Body)
    | Data(data: Bytes)
    | Listing(at: nat, entries: seq<DirEntry>)

  function Empty(norm: Path -> Path, objects: map<Path, Bytes>): State {
    State(norm, [], map[], map[], objects)
  }

  // ---- helpers ------------------------------------------------------------

  function Join(parent: Path, name: Bytes): Path { parent + [SLASH] + name }

  function EndsWithSlash(p: Bytes): bool { p != [] && p[|p| - 1] == SLASH }

  function PathOf(st: State, nodeid: nat): Option<Path> {
    if nodeid < |st.slab| then Some(st.slab[nodeid].path) else None
  }

  /** Append to the slab and point the path at the new slot. */
  function Insert(st: State, p: Path, attr: Attr): State {
    st.(slab := st.slab + [OpenedFile(p, attr)], inodes := st.inodes[p := |st.slab|])
  }

  function Bit(flags: nat, weight: nat): bool
    requires weight > 0
  {
    flags / weight % 2 == 1
  }

  const O_WRONLY: nat := 1
  const O_RDWR: nat := 2
  const O_CREAT: nat := 0x40
  const O_TRUNC: nat := 0x200
  const O_APPEND: nat := 0x400

  function IsAppend(flags: nat): bool { Bit(flags, O_APPEND) }

  function IsTrunc(flags: nat): bool { Bit(flags, O_TRUNC) || Bit(flags, O_CREAT) }

  function IsWrite(flags: nat): bool {
    flags % 4 == O_WRONLY || flags % 4 == O_RDWR || IsAppend(flags)
  }

  /** The three tests on a flag word taken apart into its bit groups: access mode,
      O_CREAT, O_TRUNC, O_APPEND, and x, y, z for the bits nobody looks at. */
  lemma FlagMeaning(mode: nat, x: nat, creat: nat, y: nat, trunc: nat, append: nat, z: nat)
    requires mode < 4 && x < 16 && creat < 2 && y < 4 && trunc < 2 && append < 2
    ensures var flags := mode + 4 * x + O_CREAT * creat + 128 * y + O_TRUNC * trunc + O_APPEND * append + 2048 * z;
      && (IsWrite(flags) <==> mode == O_WRONLY || mode == O_RDWR || append == 1)
      && (IsTrunc(flags) <==> trunc == 1 || creat == 1)
      && (IsAppend(flags) <==> append == 1)
  {
    var flags := mode + 4 * x + O_CREAT * creat + 128 * y + O_TRUNC * trunc + O_APPEND * append + 2048 * z;
    var above := append + 2 * z;
    var middle := trunc + 2 * above;
    var upper := creat + 2 * (y + 4 * middle);
    BitAt(flags, O_APPEND, mode + 4 * x + O_CREAT * creat + 128 * y + O_TRUNC * trunc, append, z);
    BitAt(flags, O_TRUNC, mode + 4 * x + O_CREAT * creat + 128 * y, trunc, above);
    BitAt(flags, O_CREAT, mode + 4 * x, creat, y + 4 * middle);
    AccessMode(flags, mode, x + 16 * upper);
    hide Bit;
  }

  lemma AccessMode(flags: nat, mode: nat, above: nat)
    requires mode < 4 && flags == mode + 4 * above
    ensures flags % 4 == mode
  {
  }

  lemma BitAt(flags: nat, weight: nat, low: nat, bit: nat, high: nat)
    requires weight in {O_CREAT, O_TRUNC, O_APPEND}
    requires low < weight && bit < 2 && flags == low + weight * (bit + 2 * high)
    ensures Bit(flags, weight) <==> bit == 1
  {
    assert flags / weight == bit + 2 * high;
  }

  /** (is_write, is_append), or EACCES. */
  function CheckFlags(env: Env, flags: nat): Option<(bool, bool)> {
    if IsTrunc(flags) && !env.capWrite then None
    else if IsAppend(flags) && !env.capAppend then None
    else Some((IsWrite(flags), IsAppend(flags)))
  }

  // ---- backend calls ------------------------------------------------------

  datatype Stat = Stat(isDir: bool, size: nat)

  function StatPath(st: State, env: Env, p: Path): Option<Stat> {
    if !env.statOk then None
    else if env.isDir then Some(Stat(true, env.dirSize))
    else if st.norm(p) in st.objects then Some(Stat(false, |st.objects[st.norm(p)]|))
    else None
  }

  function ReadPath(st: State, env: Env, p: Path, offset: nat): Option<Bytes> {
    if !env.readOk || st.norm(p) !in st.objects then None
    else
      var content := st.objects[st.norm(p)];
      if offset <= |content| then Some(content[offset..])
      else if env.emptyPastEnd then Some([])
      else None
  }

  function Delete(st: State, env: Env, p: Path): (State, bool) {
    if env.deleteOk then (st.(objects := st.objects - {st.norm(p)}), true) else (st, false)
  }

  // ---- do_* ---------------------------------------------------------------

  function GetMetadata(st: State, env: Env, p: Path): (State, Option<Attr>) {
    match StatPath(st, env, p)
    case None => (st, None)
    case Some(s) =>
      if p in st.inodes then (st, Some(Attr(st.inodes[p], s.size, s.isDir)))
      else (Insert(st, p, Attr(0, s.size, s.isDir)), Some(Attr(|st.slab|, s.size, s.isDir)))
  }

  /** Opening a writer fails on a directory. */
  function SetWriter(st: State, env: Env, p: Path, flags: nat): (State, bool) {
    match CheckFlags(env, flags)
    case None => (st, false)
    case Some((isWrite, isAppend)) =>
      if !isWrite then (st, true)
      else if !env.openOk || env.isDir then (st, false)
      else if !isAppend then (st.(writers := st.writers[p := InnerWriter([], [], 0)]), true)
      else match StatPath(st, env, p)
        case None => (st, false)
        case Some(s) =>
          (st.(writers := st.writers[p := InnerWriter(st.objects[st.norm(p)], [], s.size)]), true)
  }

  function ReleaseWriter(st: State, env: Env, p: Path): (State, bool) {
    if p !in st.writers || !env.closeOk then (st, false)
    else
      var w := st.writers[p];
      (st.(objects := st.objects[st.norm(p) := w.base + w.data], writers := st.writers - {p}), true)
  }

  function WritePath(st: State, env: Env, p: Path, offset: nat, data: Bytes): (State, bool) {
    if p !in st.writers then (st, false)
    else
      var w := st.writers[p];
      if offset != w.written || !env.writeOk then (st, false)
      else (st.(writers := st.writers[p := InnerWriter(w.base, w.data + data, w.written + |data|)]), true)
  }

  function DirPath(p: Path): Path { if EndsWithSlash(p) then p else p + [SLASH] }

  /** The key under which readdir files a listed child. */
  function ListedKey(p: Path, name: Bytes): Path { Join(DirPath(p), name) }

  /** The name readdir reports for a listed child. */
  function ShownName(name: Bytes): Bytes {
    if EndsWithSlash(name) then name[..|name| - 1] else name
  }

  function ListEntry(st: State, p: Path, e: Listed, i: nat): (State, DirEntry) {
    var key := ListedKey(p, e.name);
    var type_ := if e.isDir then DIR_TYPE else FILE_TYPE;
    if key in st.inodes then (st, DirEntry(st.inodes[key], i + 1, type_, ShownName(e.name)))
    else (Insert(st, key, Attr(0, e.size, e.isDir)), DirEntry(|st.slab|, i + 1, type_, ShownName(e.name)))
  }

  function ListEntries(st: State, p: Path, es: seq<Listed>, i: nat): (State, seq<DirEntry>)
    decreases |es| - i
  {
    if i >= |es| then (st, [])
    else
      var (st1, d) := ListEntry(st, p, es[i], i);
      var (st2, ds) := ListEntries(st1, p, es, i + 1);
      (st2, [d] + ds)
  }

  // ---- what the helpers leave alone ---------------------------------------

  /** Opening a writer changes nothing but that path's writer. */
  lemma SetWriterFrame(st: State, env: Env, p: Path, flags: nat)
    ensures SetWriter(st, env, p, flags).0 ==
              st.(writers := SetWriter(st, env, p, flags).0.writers)
  {
  }

  /** Filing inodes changes neither writers nor the backend. */
  predicate OnlyTable(st: State, st': State) {
    st'.writers == st.writers && st'.objects == st.objects
  }

  lemma GetMetadataFrame(st: State, env: Env, p: Path)
    ensures OnlyTable(st, GetMetadata(st, env, p).0) && GetMetadata(st, env, p).0.norm == st.norm
  {
  }

  lemma {:induction false} ListingFrame(st: State, p: Path, es: seq<Listed>, i: nat)
    ensures OnlyTable(st, ListEntries(st, p, es, i).0) && ListEntries(st, p, es, i).0.norm == st.norm
    decreases |es| - i
  {
    if i < |es| {
      ListingFrame(ListEntry(st, p, es[i], i).0, p, es, i + 1);
    }
  }

  // ---- handlers -----------------------------------------------------------

  function InitOp(st: State, major: nat, minor: nat): (State, Answer) {
    if major != KERNEL_VERSION || minor < MIN_KERNEL_MINOR_VERSION then (st, Errno(EIO))
    else
      var root := OpenedFile(ROOT, Attr(DEFAULT_ROOT_DIR_INODE, 0, true));
      (st.(slab := st.slab + [root] + [root], inodes := st.inodes[ROOT := DEFAULT_ROOT_DIR_INODE]),
       Reply(InitBody))
  }

  function LookupOp(st: State, env: Env, p: Path): (State, Answer) {
    match GetMetadata(st, env, p)
    case (st', None) => (st', Errno(ENOENT))
    case (st', Some(attr)) => (st', Reply(EntryBody(attr)))
  }

  function GetattrOp(st: State, env: Env, p: Path): (State, Answer) {
    match GetMetadata(st, env, p)
    case (st', None) => (st', Errno(ENOENT))
    case (st', Some(attr)) => (st', Reply(AttrBody(attr)))
  }

  /** The inode is filed before the writer is opened, and stays if that fails. */
  function CreateOp(st: State, env: Env, p: Path, flags: nat): (State, Answer) {
    var ino := |st.slab|;
    match SetWriter(Insert(st, p, Attr(0, 0, false)), env, p, flags)
    case (st', false) => (st', Errno(ENOENT))
    case (st', true) => (st', Reply(CreateBody(Attr(ino, 0, false))))
  }

  function MkdirOp(st: State, env: Env, p: Path): (State, Answer) {
    var ino := |st.slab|;
    var st' := Insert(st, p, Attr(0, 0, true));
    if env.mkdirOk then (st', Reply(EntryBody(Attr(ino, 0, true)))) else (st', Errno(ENOENT))
  }

  /** unlink and rmdir are the same code. */
  function RemoveOp(st: State, env: Env, p: Path): (State, Answer) {
    match Delete(st, env, p)
    case (st', false) => (st', Errno(ENOENT))
    case (st', true) => (st'.(inodes := st'.inodes - {p}), Reply(NoBody))
  }

  function ReleaseOp(st: State, env: Env, p: Path): (State, Answer) {
    match ReleaseWriter(st, env, p)
    case (st', false) => (st', Errno(EIO))
    case (st', true) => (st', Reply(NoBody))
  }

  function OpenOp(st: State, env: Env, p: Path, flags: nat): (State, Answer) {
    match SetWriter(st, env, p, flags)
    case (st', false) => (st', Errno(ENOENT))
    case (st', true) => (st', Reply(OpenBody))
  }

  function ReadOp(st: State, env: Env, p: Path, offset: nat): (State, Answer) {
    match ReadPath(st, env, p, offset)
    case None => (st, Errno(ENOENT))
    case Some(data) => (st, Data(data))
  }

  function WriteOp(st: State, env: Env, p: Path, offset: nat, size: nat, data: Bytes): (State, Answer) {
    match WritePath(st, env, p, offset, data)
    case (st', false) => (st', Errno(EIO))
    case (st', true) => (st', Reply(WriteBody(size)))
  }

  /** `room` is the size of the reply chain: the split at 16 is unwrapped before
      anything is listed. */
  function ReaddirOp(st: State, env: Env, p: Path, at: Option<nat>, room: nat): (State, Answer) {
    if at.None? then (st, Abort)
    else if room < OUT_HEADER_SIZE then (st, Crash)
    else match env.listing
      case None => (st, Errno(ENOENT))
      case Some(es) =>
        var (st', entries) := ListEntries(st, p, es, 0);
        (st', Listing(at.value, entries))
  }

  /** The operations that start by looking their nodeid up in the slab. */
  predicate NeedsNode(op: Op) {
    match op
    case Lookup(_) => true
    case Getattr => true
    case Setattr => true
    case Create(_, _) => true
    case Unlink(_) => true
    case Release => true
    case Flush => true
    case Open(_) => true
    case Read(_) => true
    case Write(_, _, _) => true
    case Mkdir(_) => true
    case Rmdir(_) => true
    case Releasedir => true
    case Fsyncdir => true
    case Opendir => true
    case Readdir(_) => true
    case _ => false
  }

  function OnNode(st: State, op: Op, env: Env, p: Path, room: nat): (State, Answer)
    requires NeedsNode(op)
  {
    match op
    case Lookup(name) => LookupOp(st, env, Join(p, name))
    case Getattr => GetattrOp(st, env, p)
    case Setattr => GetattrOp(st, env, p)
    case Create(flags, name) => CreateOp(st, env, Join(p, name), flags)
    case Unlink(name) => RemoveOp(st, env, Join(p, name))
    case Release => ReleaseOp(st, env, p)
    case Flush => (st, Reply(NoBody))
    case Open(flags) => OpenOp(st, env, p, flags)
    case Read(offset) => ReadOp(st, env, p, offset)
    case Write(offset, size, data) => WriteOp(st, env, p, offset, size, data)
    case Mkdir(name) => MkdirOp(st, env, Join(p, name))
    case Rmdir(name) => RemoveOp(st, env, Join(p, name))
    case Releasedir => (st, Reply(NoBody))
    case Fsyncdir => (st, Reply(NoBody))
    case Opendir => (st, Reply(OpenBody))
    case Readdir(at) => ReaddirOp(st, env, p, at, room)
  }

  /** One message. */
  function Step(st: State, msg: Msg, env: Env, room: nat): (State, Answer) {
    if NeedsNode(msg.op) then
      match PathOf(st, msg.nodeid)
      case None => (st, Errno(ENOENT))
      case Some(p) => OnNode(st, msg.op, env, p, room)
    else
      match msg.op
      case Truncated => (st, Abort)
      case Underflow => (st, Crash)
      case BadName => (st, Errno(EIO))
      case TooLong => (st, Errno(EIO))
      case Unsupported => (st, Errno(ENOSYS))
      case Init(major, minor) => InitOp(st, major, minor)
      case Destroy => (st, Silent)
      case Forget => (st, Silent)
      case _ => assert false; (st, Crash)
  }

  // ---- runs ---------------------------------------------------------------

  datatype Event = Event(msg: Msg, env: Env, room: nat)

  function After(st: State, e: Event): State { Step(st, e.msg, e.env, e.room).0 }

  function AnswerTo(st: State, e: Event): Answer { Step(st, e.msg, e.env, e.room).1 }

  function Run(st: State, es: seq<Event>): State
    decreases |es|
  {
    if es == [] then st else Run(After(st, es[0]), es[1..])
  }

  lemma {:induction false} RunAppend(st: State, a: seq<Event>, b: seq<Event>)
    ensures Run(st, a + b) == Run(Run(st, a), b)
    decreases |a|
  {
    if a == [] {
      assert a + b == b;
    } else {
      assert (a + b)[1..] == a[1..] + b;
      RunAppend(After(st, a[0]), a[1..], b);
    }
  }
}
