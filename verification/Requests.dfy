/** From the bytes of a readable chain to a decoded request: what the `read_obj`,
    `read_exact` and `read_to_at` calls of each handler see, including every way a
    request can be malformed. */
module Requests {
  import opened GuestMemory
  import opened Chain
  import opened Cursor
  import opened Messages

  const IN_HEADER_SIZE: nat := 40
  const IO_IN_SIZE: nat := 40       // ReadIn and WriteIn
  const INIT_IN_SIZE: nat := 16
  const CREATE_IN_SIZE: nat := 16
  const MKDIR_IN_SIZE: nat := 8
  const OPEN_IN_SIZE: nat := 8

  datatype InHeader = InHeader(len: nat, opcode: nat, unique: nat, nodeid: nat)

  datatype Op =
    | Truncated    // a structure could not be read: no reply at all
    | Underflow    // in_header.len is smaller than the fixed part: the handler panics
    | BadName      // not one final NUL, or not UTF-8
    | TooLong
    | Unsupported
    | Init(major: nat, minor: nat)
    | Destroy
    | Forget
    | Lookup(name: Bytes)
    | Getattr
    | Setattr
    | Create(flags: nat, name: Bytes)
    | Unlink(name: Bytes)
    | Release
    | Flush
    | Open(flags: nat)
    | Read(offset: nat)
    | Write(offset: nat, size: nat, data: Bytes)
    | Mkdir(name: Bytes)
    | Rmdir(name: Bytes)
    | Releasedir
    | Fsyncdir
    | Opendir
    | Readdir(at: Option<nat>)  // None: ReadIn could not be read

  datatype Msg = Msg(unique: nat, nodeid: nat, op: Op)

  // ---- names --------------------------------------------------------------

  predicate Cont(b: u8) { 0x80 <= b <= 0xBF }

  /** Well-formed UTF-8 (table 3-7 of the Unicode standard). */
  predicate Utf8(b: Bytes)
    decreases |b|
  {
    if b == [] then true
    else if b[0] < 0x80 then Utf8(b[1..])
    else if 0xC2 <= b[0] <= 0xDF then |b| >= 2 && Cont(b[1]) && Utf8(b[2..])
    else if 0xE0 <= b[0] <= 0xEF then
      && |b| >= 3 && Cont(b[1]) && Cont(b[2])
      && (b[0] == 0xE0 ==> b[1] >= 0xA0) && (b[0] == 0xED ==> b[1] <= 0x9F)
      && Utf8(b[3..])
    else if 0xF0 <= b[0] <= 0xF4 then
      && |b| >= 4 && Cont(b[1]) && Cont(b[2]) && Cont(b[3])
      && (b[0] == 0xF0 ==> b[1] >= 0x90) && (b[0] == 0xF4 ==> b[1] <= 0x8F)
      && Utf8(b[4..])
    else false
  }

  /** `bytes_to_str`: a C string with exactly one NUL, at the end, holding UTF-8. */
  function BytesToStr(b: Bytes): Option<Bytes> {
    if b == [] || b[|b| - 1] != 0 || 0 in b[..|b| - 1] || !Utf8(b[..|b| - 1]) then None
    else Some(b[..|b| - 1])
  }

  // ---- parsing ------------------------------------------------------------

  function ParseHeader(b: Bytes): InHeader
    requires |b| == IN_HEADER_SIZE
  {
    InHeader(Field(b, 0, 4), Field(b, 4, 4), Field(b, 8, 8), Field(b, 16, 8))
  }

  datatype Named =
    | NamePanic   // the name length underflows
    | NameShort   // fewer bytes than the header announces
    | NameBad
    | NameOk(name: Bytes)

  /** The name at the start of `left`, behind `fixed` bytes of structure. */
  function NameOf(h: InHeader, left: Bytes, fixed: nat): Named {
    if h.len < IN_HEADER_SIZE + fixed then NamePanic
    else
      var n := h.len - IN_HEADER_SIZE - fixed;
      if |left| < n then NameShort
      else match BytesToStr(left[..n])
        case None => NameBad
        case Some(name) => NameOk(name)
  }

  function ParseNamed(h: InHeader, left: Bytes, fixed: nat, make: Bytes -> Op): Op {
    if |left| < fixed then Truncated
    else match NameOf(h, left[fixed..], fixed)
      case NamePanic => Underflow
      case NameShort => Truncated
      case NameBad => BadName
      case NameOk(name) => make(name)
  }

  /** The payload of a write: everything `read_to_at(size)` gathers. */
  function Payload(mem: Bytes, rest: seq<Slice>, size: nat): Bytes {
    View(mem, Cells(Pick(AfterExact(rest, IO_IN_SIZE), size)))
  }

  /** The request after its header, `rest` being the slices behind the header. */
  function ParseOp(h: InHeader, mem: Bytes, rest: seq<Slice>): Op {
    var left := View(mem, Cells(rest));
    if h.len > MAX_BUFFER_SIZE + BUFFER_HEADER_SIZE then TooLong
    else match h.opcode
      case 1 => ParseNamed(h, left, 0, name => Lookup(name))
      case 2 => Forget
      case 3 => Getattr
      case 4 => Setattr
      case 9 => ParseNamed(h, left, MKDIR_IN_SIZE, name => Mkdir(name))
      case 10 => ParseNamed(h, left, 0, name => Unlink(name))
      case 11 => ParseNamed(h, left, 0, name => Rmdir(name))
      case 14 =>
        if |left| < OPEN_IN_SIZE then Truncated else Open(Field(left, 0, 4))
      case 15 =>
        if |left| < IO_IN_SIZE then Truncated else Read(Field(left, 8, 8))
      case 16 =>
        if |left| < IO_IN_SIZE then Truncated
        else
          var size := Field(left, 16, 4);
          Write(Field(left, 8, 8), size, Payload(mem, rest, size))
      case 18 => Release
      case 25 => Flush
      case 26 =>
        if |left| < INIT_IN_SIZE then Truncated else Init(Field(left, 0, 4), Field(left, 4, 4))
      case 27 => Opendir
      case 28 =>
        Readdir(if |left| < IO_IN_SIZE then None else Some(Field(left, 8, 8)))
      case 29 => Releasedir
      case 30 => Fsyncdir
      case 35 =>
        if |left| < CREATE_IN_SIZE then Truncated
        else
          var flags := Field(left, 0, 4);
          ParseNamed(h, left, CREATE_IN_SIZE, name => Create(flags, name))
      case 38 => Destroy
      case _ => Unsupported
  }

  function Parse(mem: Bytes, rs: seq<Slice>): Msg {
    var all := View(mem, Cells(rs));
    if |all| < IN_HEADER_SIZE then Msg(0, 0, Truncated)
    else
      var h := ParseHeader(all[..IN_HEADER_SIZE]);
      Msg(h.unique, h.nodeid, ParseOp(h, mem, AfterExact(rs, IN_HEADER_SIZE)))
  }

  // ---- independence of the segmentation -----------------------------------

  lemma ViewAfter(mem: Bytes, ss: seq<Slice>, n: nat)
    requires n <= |Cells(ss)|
    ensures View(mem, Cells(AfterExact(ss, n))) == View(mem, Cells(ss))[n..]
  {
    AfterExactCells(ss, n);
    ViewPrefix(mem, Cells(ss), n);
  }

  /** Gathering at least as many bytes as are left gathers all of them. */
  lemma GatherAll(mem: Bytes, ss: seq<Slice>, count: nat)
    requires |Cells(ss)| <= count
    ensures View(mem, Cells(Pick(ss, count))) == View(mem, Cells(ss))
  {
    PickShortest(ss, count);
    PickCells(ss, count);
    assert Cells(Pick(ss, count)) == Cells(ss);
  }

  /** A write carries exactly the bytes behind its structure when there are no more
      of them than its size field says. */
  lemma PayloadFlat(mem: Bytes, rest: seq<Slice>, size: nat)
    requires IO_IN_SIZE <= |Cells(rest)| <= IO_IN_SIZE + size
    ensures Payload(mem, rest, size) == View(mem, Cells(rest))[IO_IN_SIZE..]
  {
    ViewAfter(mem, rest, IO_IN_SIZE);
    AfterExactCells(rest, IO_IN_SIZE);
    GatherAll(mem, AfterExact(rest, IO_IN_SIZE), size);
  }

  /** A write is answered with the size it announced, but stores what was gathered: the
      two agree exactly when the announced size falls on a boundary between the slices
      behind the structure (or on their end). */
  lemma PayloadSizeExact(mem: Bytes, rest: seq<Slice>, size: nat)
    ensures var ss := AfterExact(rest, IO_IN_SIZE);
      |Payload(mem, rest, size)| == size <==> exists k :: 0 <= k <= |ss| && |Cells(ss[..k])| == size
  {
    var ss := AfterExact(rest, IO_IN_SIZE);
    PickExact(ss, size);
    PickCells(ss, size);
    if size == |Cells(ss)| {
      assert ss[..|ss|] == ss;
    }
    forall k | 0 <= k <= |ss|
      ensures |Cells(ss[..k])| <= |Cells(ss)|
    {
      assert ss == ss[..k] + ss[k..];
      CellsAppend(ss[..k], ss[k..]);
    }
  }

  /** The flat request does not carry more payload than its write announces. */
  predicate PayloadBounded(all: Bytes) {
    |all| >= IN_HEADER_SIZE + IO_IN_SIZE && Field(all, 4, 4) == 16 ==>
      |all| <= IN_HEADER_SIZE + IO_IN_SIZE + Field(all, IN_HEADER_SIZE + 16, 4)
  }

  lemma SubField(all: Bytes, from: nat, at: nat, k: nat)
    requires from + at + k <= |all|
    ensures Field(all[from..], at, k) == Field(all, from + at, k)
  {
    assert all[from..][at..at + k] == all[from + at..from + at + k];
  }

  /** How the guest cuts a request into descriptors, and where it puts them, does
      not change what is understood. */
  lemma ParseSegmentation(m1: Bytes, rs1: seq<Slice>, m2: Bytes, rs2: seq<Slice>)
    requires View(m1, Cells(rs1)) == View(m2, Cells(rs2))
    requires PayloadBounded(View(m1, Cells(rs1)))
    ensures Parse(m1, rs1) == Parse(m2, rs2)
  {
    var all := View(m1, Cells(rs1));
    if |all| >= IN_HEADER_SIZE {
      ViewAfter(m1, rs1, IN_HEADER_SIZE);
      ViewAfter(m2, rs2, IN_HEADER_SIZE);
      var r1, r2 := AfterExact(rs1, IN_HEADER_SIZE), AfterExact(rs2, IN_HEADER_SIZE);
      var left := View(m1, Cells(r1));
      assert left == all[IN_HEADER_SIZE..] == View(m2, Cells(r2));
      var h := ParseHeader(all[..IN_HEADER_SIZE]);
      if h.opcode == 16 && |left| >= IO_IN_SIZE {
        assert all[..IN_HEADER_SIZE][4..8] == all[4..8];
        SubField(all, IN_HEADER_SIZE, 16, 4);
        PayloadFlat(m1, r1, Field(left, 16, 4));
        PayloadFlat(m2, r2, Field(left, 16, 4));
      }
      ParseOpFlat(h, m1, r1, m2, r2);
    }
  }

  lemma ParseOpFlat(h: InHeader, m1: Bytes, r1: seq<Slice>, m2: Bytes, r2: seq<Slice>)
    requires View(m1, Cells(r1)) == View(m2, Cells(r2))
    requires h.opcode == 16 && |Cells(r1)| >= IO_IN_SIZE ==>
               var size := Field(View(m1, Cells(r1)), 16, 4);
               Payload(m1, r1, size) == Payload(m2, r2, size)
    ensures ParseOp(h, m1, r1) == ParseOp(h, m2, r2)
  {
  }

  /** A request depends on guest memory only through its own cells. */
  lemma ParseOwnBytes(m1: Bytes, m2: Bytes, rs: seq<Slice>)
    requires View(m1, Cells(rs)) == View(m2, Cells(rs))
    ensures Parse(m1, rs) == Parse(m2, rs)
  {
    if |Cells(rs)| >= IN_HEADER_SIZE {
      ViewAfter(m1, rs, IN_HEADER_SIZE);
      ViewAfter(m2, rs, IN_HEADER_SIZE);
      AfterExactCells(rs, IN_HEADER_SIZE);
      var rest := AfterExact(rs, IN_HEADER_SIZE);
      if |Cells(rest)| >= IO_IN_SIZE {
        PayloadOwnBytes(m1, m2, rest, Field(View(m1, Cells(rest)), 16, 4));
      }
      ParseOpFlat(ParseHeader(View(m1, Cells(rs))[..IN_HEADER_SIZE]), m1, rest, m2, rest);
    }
  }

  lemma PayloadOwnBytes(m1: Bytes, m2: Bytes, rest: seq<Slice>, size: nat)
    requires View(m1, Cells(rest)) == View(m2, Cells(rest)) && |Cells(rest)| >= IO_IN_SIZE
    ensures Payload(m1, rest, size) == Payload(m2, rest, size)
  {
    var after := AfterExact(rest, IO_IN_SIZE);
    ViewAfter(m1, rest, IO_IN_SIZE);
    ViewAfter(m2, rest, IO_IN_SIZE);
    PickCells(after, size);
    var n := |Cells(Pick(after, size))|;
    ViewPrefix(m1, Cells(after), n);
    ViewPrefix(m2, Cells(after), n);
  }

  // ---- what a guest sends -------------------------------------------------

  /** A request as the guest lays it out; `caller` are the uid, gid, pid and
      extension-length fields the device never looks at. */
  function RequestBytes(len: nat, opcode: nat, unique: nat, nodeid: nat, caller: Bytes, rest: Bytes): Bytes {
    LE(len, 4) + LE(opcode, 4) + LE(unique, 8) + LE(nodeid, 8) + caller + rest
  }

  /** ReadIn or WriteIn: file handle, offset, size, and 20 bytes not looked at. */
  function IoIn(fh: Bytes, offset: nat, size: nat, rest: Bytes): Bytes {
    fh + LE(offset, 8) + LE(size, 4) + rest
  }

  lemma FiveParts(p: Bytes, q: Bytes, r: Bytes, s: Bytes, t: Bytes, rest: Bytes)
    requires |p| == 4 && |q| == 4 && |r| == 8 && |s| == 8 && |t| == 16
    ensures var b := p + q + r + s + t + rest;
      && |b| == 40 + |rest| && b[40..] == rest
      && b[..40][0..4] == p && b[..40][4..8] == q && b[..40][8..16] == r && b[..40][16..24] == s
  {
    var b := p + q + r + s + t + rest;
    assert b[..40] == p + q + r + s + t;
  }

  /** The header survives the trip, whatever follows it. */
  lemma HeaderRoundTrip(len: nat, opcode: nat, unique: nat, nodeid: nat, caller: Bytes, rest: Bytes)
    requires len < U32 && opcode < U32 && unique < U64 && nodeid < U64 && |caller| == 16
    ensures var b := RequestBytes(len, opcode, unique, nodeid, caller, rest);
      && |b| == IN_HEADER_SIZE + |rest| && b[IN_HEADER_SIZE..] == rest
      && ParseHeader(b[..IN_HEADER_SIZE]) == InHeader(len, opcode, unique, nodeid)
  {
    hide LE;
    hide UnLE;
    hide Pow256;
    Widths();
    FiveParts(LE(len, 4), LE(opcode, 4), LE(unique, 8), LE(nodeid, 8), caller, rest);
    UnLEOfLE(len, 4);
    UnLEOfLE(opcode, 4);
    UnLEOfLE(unique, 8);
    UnLEOfLE(nodeid, 8);
  }

  /** A request laid out by the guest is its header, and what its operation makes of the
      bytes behind it. */
  lemma RequestOpened(mem: Bytes, rs: seq<Slice>, h: InHeader, caller: Bytes, left: Bytes)
    requires h.len < U32 && h.opcode < U32 && h.unique < U64 && h.nodeid < U64 && |caller| == 16
    requires View(mem, Cells(rs)) == RequestBytes(h.len, h.opcode, h.unique, h.nodeid, caller, left)
    ensures var rest := AfterExact(rs, IN_HEADER_SIZE);
      && View(mem, Cells(rest)) == left
      && Parse(mem, rs) == Msg(h.unique, h.nodeid, ParseOp(h, mem, rest))
  {
    hide ParseOp, ParseHeader, RequestBytes, Cells;
    HeaderRoundTrip(h.len, h.opcode, h.unique, h.nodeid, caller, left);
    ViewAfter(mem, rs, IN_HEADER_SIZE);
  }

  lemma IoInRoundTrip(fh: Bytes, offset: nat, size: nat, more: Bytes, data: Bytes)
    requires |fh| == 8 && offset < U64 && size < U32 && |more| == 20
    ensures var b := IoIn(fh, offset, size, more) + data;
      && |b| == IO_IN_SIZE + |data| && b[IO_IN_SIZE..] == data
      && Field(b, 8, 8) == offset && Field(b, 16, 4) == size
  {
    hide LE;
    hide UnLE;
    hide Pow256;
    Widths();
    var b := IoIn(fh, offset, size, more) + data;
    assert b[8..16] == LE(offset, 8);
    assert b[16..20] == LE(size, 4);
    UnLEOfLE(offset, 8);
    UnLEOfLE(size, 4);
  }

  /** A well-formed write request is understood as that write, for every way of
      cutting it into descriptors. */
  lemma ParseWriteRequest(mem: Bytes, rs: seq<Slice>, len: nat, unique: nat, nodeid: nat,
                          caller: Bytes, fh: Bytes, offset: nat, more: Bytes, data: Bytes)
    requires len <= MAX_BUFFER_SIZE + BUFFER_HEADER_SIZE && unique < U64 && nodeid < U64
    requires |caller| == 16 && |fh| == 8 && |more| == 20 && offset < U64 && |data| < U32
    requires View(mem, Cells(rs)) ==
               RequestBytes(len, 16, unique, nodeid, caller, IoIn(fh, offset, |data|, more) + data)
    ensures Parse(mem, rs) == Msg(unique, nodeid, Write(offset, |data|, data))
  {
    var h, rest := InHeader(len, 16, unique, nodeid), AfterExact(rs, IN_HEADER_SIZE);
    RequestOpened(mem, rs, h, caller, IoIn(fh, offset, |data|, more) + data);
    OpOnOffset(h, mem, rest, fh, offset, |data|, more, data);
    PayloadFlat(mem, rest, |data|);
    IoInRoundTrip(fh, offset, |data|, more, data);
    hide *;
  }

  /** read, write and readdir take their offset, and write its size, from the structure. */
  lemma OpOnOffset(h: InHeader, mem: Bytes, rest: seq<Slice>, fh: Bytes, offset: nat, size: nat,
                   more: Bytes, behind: Bytes)
    requires h.opcode in {15, 16, 28} && h.len <= MAX_BUFFER_SIZE + BUFFER_HEADER_SIZE
    requires |fh| == 8 && |more| == 20 && offset < U64 && size < U32
    requires View(mem, Cells(rest)) == IoIn(fh, offset, size, more) + behind
    ensures |Cells(rest)| == IO_IN_SIZE + |behind|
    ensures ParseOp(h, mem, rest) ==
              if h.opcode == 15 then Read(offset)
              else if h.opcode == 16 then Write(offset, size, Payload(mem, rest, size))
              else Readdir(Some(offset))
  {
    IoInRoundTrip(fh, offset, size, more, behind);
    hide IoIn, Cells, Field, Payload, NameOf;
  }

  lemma ParseReadRequest(mem: Bytes, rs: seq<Slice>, len: nat, unique: nat, nodeid: nat,
                         caller: Bytes, fh: Bytes, offset: nat, size: nat, more: Bytes, junk: Bytes)
    requires len <= MAX_BUFFER_SIZE + BUFFER_HEADER_SIZE && unique < U64 && nodeid < U64
    requires |caller| == 16 && |fh| == 8 && |more| == 20 && offset < U64 && size < U32
    requires View(mem, Cells(rs)) ==
               RequestBytes(len, 15, unique, nodeid, caller, IoIn(fh, offset, size, more) + junk)
    ensures Parse(mem, rs) == Msg(unique, nodeid, Read(offset))
  {
    var h := InHeader(len, 15, unique, nodeid);
    RequestOpened(mem, rs, h, caller, IoIn(fh, offset, size, more) + junk);
    OpOnOffset(h, mem, AfterExact(rs, IN_HEADER_SIZE), fh, offset, size, more, junk);
    hide *;
  }

  /** A directory request is understood with its offset, whatever its size field says. */
  lemma ParseReaddirRequest(mem: Bytes, rs: seq<Slice>, len: nat, unique: nat, nodeid: nat,
                            caller: Bytes, fh: Bytes, offset: nat, size: nat, more: Bytes, junk: Bytes)
    requires len <= MAX_BUFFER_SIZE + BUFFER_HEADER_SIZE && unique < U64 && nodeid < U64
    requires |caller| == 16 && |fh| == 8 && |more| == 20 && offset < U64 && size < U32
    requires View(mem, Cells(rs)) ==
               RequestBytes(len, 28, unique, nodeid, caller, IoIn(fh, offset, size, more) + junk)
    ensures Parse(mem, rs) == Msg(unique, nodeid, Readdir(Some(offset)))
  {
    var h := InHeader(len, 28, unique, nodeid);
    RequestOpened(mem, rs, h, caller, IoIn(fh, offset, size, more) + junk);
    OpOnOffset(h, mem, AfterExact(rs, IN_HEADER_SIZE), fh, offset, size, more, junk);
    hide *;
  }

  lemma ParseInitRequest(mem: Bytes, rs: seq<Slice>, len: nat, unique: nat, nodeid: nat,
                         caller: Bytes, major: nat, minor: nat, more: Bytes)
    requires len <= MAX_BUFFER_SIZE + BUFFER_HEADER_SIZE && unique < U64 && nodeid < U64
    requires |caller| == 16 && |more| >= 8 && major < U32 && minor < U32
    requires View(mem, Cells(rs)) ==
               RequestBytes(len, 26, unique, nodeid, caller, LE(major, 4) + LE(minor, 4) + more)
    ensures Parse(mem, rs) == Msg(unique, nodeid, Init(major, minor))
  {
    var h, left := InHeader(len, 26, unique, nodeid), LE(major, 4) + LE(minor, 4) + more;
    RequestOpened(mem, rs, h, caller, left);
    OpIsInit(h, mem, AfterExact(rs, IN_HEADER_SIZE), major, minor, more);
    hide *;
  }

  lemma OpIsInit(h: InHeader, mem: Bytes, rest: seq<Slice>, major: nat, minor: nat, more: Bytes)
    requires h.opcode == 26 && h.len <= MAX_BUFFER_SIZE + BUFFER_HEADER_SIZE
    requires |more| >= 8 && major < U32 && minor < U32
    requires View(mem, Cells(rest)) == LE(major, 4) + LE(minor, 4) + more
    ensures ParseOp(h, mem, rest) == Init(major, minor)
  {
    hide LE, UnLE, Pow256, Cells;
    var left := LE(major, 4) + LE(minor, 4) + more;
    Widths();
    assert left[0..4] == LE(major, 4) && left[4..8] == LE(minor, 4);
    UnLEOfLE(major, 4);
    UnLEOfLE(minor, 4);
  }

  /** The bytes in front of the name, and what the name is for. */
  function FixedOf(opcode: nat): nat {
    if opcode == 35 then CREATE_IN_SIZE else if opcode == 9 then MKDIR_IN_SIZE else 0
  }

  function NamedOp(opcode: nat, fixed: Bytes, name: Bytes): Op
    requires opcode == 35 ==> |fixed| >= 4
  {
    if opcode == 1 then Lookup(name)
    else if opcode == 9 then Mkdir(name)
    else if opcode == 10 then Unlink(name)
    else if opcode == 11 then Rmdir(name)
    else if opcode == 35 then Create(Field(fixed, 0, 4), name)
    else Unsupported
  }

  /** lookup, mkdir, unlink, rmdir and create: a UTF-8 name and its NUL, of the length
      the header accounts for, is understood for every way of cutting the request, and
      whatever lies behind it. */
  lemma ParseNamedRequest(mem: Bytes, rs: seq<Slice>, opcode: nat, unique: nat, nodeid: nat,
                          caller: Bytes, fixed: Bytes, name: Bytes, junk: Bytes)
    requires opcode in {1, 9, 10, 11, 35} && |fixed| == FixedOf(opcode)
    requires unique < U64 && nodeid < U64 && |caller| == 16 && Utf8(name) && 0 !in name
    requires var len := IN_HEADER_SIZE + |fixed| + |name| + 1;
      && len <= MAX_BUFFER_SIZE + BUFFER_HEADER_SIZE
      && View(mem, Cells(rs)) ==
           RequestBytes(len, opcode, unique, nodeid, caller, fixed + (name + [0] + junk))
    ensures Parse(mem, rs) == Msg(unique, nodeid, NamedOp(opcode, fixed, name))
  {
    var h := InHeader(IN_HEADER_SIZE + |fixed| + |name| + 1, opcode, unique, nodeid);
    RequestOpened(mem, rs, h, caller, fixed + (name + [0] + junk));
    OpIsNamed(h, mem, AfterExact(rs, IN_HEADER_SIZE), fixed, name, junk);
    hide *;
  }

  lemma OpIsNamed(h: InHeader, mem: Bytes, rest: seq<Slice>, fixed: Bytes, name: Bytes, junk: Bytes)
    requires h.opcode in {1, 9, 10, 11, 35} && |fixed| == FixedOf(h.opcode)
    requires h.len == IN_HEADER_SIZE + |fixed| + |name| + 1 <= MAX_BUFFER_SIZE + BUFFER_HEADER_SIZE
    requires Utf8(name) && 0 !in name && View(mem, Cells(rest)) == fixed + (name + [0] + junk)
    ensures ParseOp(h, mem, rest) == NamedOp(h.opcode, fixed, name)
  {
    hide NameOf, UnLE, Utf8, Cells;
    NamedLeft(h, fixed, name, junk);
    if h.opcode == 35 {
      assert (fixed + (name + [0] + junk))[0..4] == fixed[0..4];
    }
  }

  lemma NamedLeft(h: InHeader, fixed: Bytes, name: Bytes, junk: Bytes)
    requires h.len == IN_HEADER_SIZE + |fixed| + |name| + 1 && Utf8(name) && 0 !in name
    ensures var left := fixed + (name + [0] + junk);
      NameOf(h, left[|fixed|..], |fixed|) == NameOk(name)
  {
    hide BytesToStr, Utf8;
    var left := fixed + (name + [0] + junk);
    NulTerminated(name);
    assert left[|fixed|..] == name + [0] + junk;
    assert (name + [0] + junk)[..|name| + 1] == name + [0];
  }

  lemma NulTerminated(name: Bytes)
    requires Utf8(name) && 0 !in name
    ensures BytesToStr(name + [0]) == Some(name)
  {
    hide Utf8;
    assert (name + [0])[..|name|] == name;
  }

  // ---- requests without a name or a structure -----------------------------

  /** The operations that need nothing behind their header. */
  function BareOp(opcode: nat): Option<Op> {
    if opcode == 2 then Some(Forget)
    else if opcode == 3 then Some(Getattr)
    else if opcode == 4 then Some(Setattr)
    else if opcode == 18 then Some(Release)
    else if opcode == 25 then Some(Flush)
    else if opcode == 27 then Some(Opendir)
    else if opcode == 29 then Some(Releasedir)
    else if opcode == 30 then Some(Fsyncdir)
    else if opcode == 38 then Some(Destroy)
    else None
  }

  /** The opcodes with a name or a structure behind the header. */
  const WITH_BODY: set<nat> := {1, 9, 10, 11, 14, 15, 16, 26, 28, 35}

  /** Whatever lies behind the header, and however the request is cut: an overlong one is
      refused, a bare operation is understood, and an unknown opcode is unsupported. */
  lemma ParseBareRequest(mem: Bytes, rs: seq<Slice>, h: InHeader, caller: Bytes, behind: Bytes)
    requires h.len < U32 && h.opcode < U32 && h.unique < U64 && h.nodeid < U64 && |caller| == 16
    requires View(mem, Cells(rs)) == RequestBytes(h.len, h.opcode, h.unique, h.nodeid, caller, behind)
    ensures var msg := Parse(mem, rs);
      && msg.unique == h.unique && msg.nodeid == h.nodeid
      && (msg.op.TooLong? <==> h.len > 0x10_0000 + 4096)
      && (h.len <= 0x10_0000 + 4096 ==>
            && (BareOp(h.opcode).Some? ==> msg.op == BareOp(h.opcode).value)
            && (msg.op.Unsupported? <==> BareOp(h.opcode).None? && h.opcode !in WITH_BODY))
  {
    hide *;
    RequestOpened(mem, rs, h, caller, behind);
    OpOfOpcode(h, mem, AfterExact(rs, IN_HEADER_SIZE));
  }

  lemma OpOfOpcode(h: InHeader, mem: Bytes, rest: seq<Slice>)
    ensures var op := ParseOp(h, mem, rest);
      && (op.TooLong? <==> h.len > 0x10_0000 + 4096)
      && (h.len <= 0x10_0000 + 4096 ==>
            && (BareOp(h.opcode).Some? ==> op == BareOp(h.opcode).value)
            && (op.Unsupported? <==> BareOp(h.opcode).None? && h.opcode !in WITH_BODY))
  {
    hide NameOf, Payload, Field, Cells, View;
  }

  /** open takes its flags from the start of its structure. */
  lemma ParseOpenRequest(mem: Bytes, rs: seq<Slice>, len: nat, unique: nat, nodeid: nat,
                         caller: Bytes, flags: nat, more: Bytes)
    requires len <= MAX_BUFFER_SIZE + BUFFER_HEADER_SIZE && unique < U64 && nodeid < U64
    requires |caller| == 16 && |more| >= 4 && flags < U32
    requires View(mem, Cells(rs)) == RequestBytes(len, 14, unique, nodeid, caller, LE(flags, 4) + more)
    ensures Parse(mem, rs) == Msg(unique, nodeid, Open(flags))
  {
    var h, left := InHeader(len, 14, unique, nodeid), LE(flags, 4) + more;
    RequestOpened(mem, rs, h, caller, left);
    OpIsOpen(h, mem, AfterExact(rs, IN_HEADER_SIZE), flags, more);
    hide *;
  }

  lemma OpIsOpen(h: InHeader, mem: Bytes, rest: seq<Slice>, flags: nat, more: Bytes)
    requires h.opcode == 14 && h.len <= MAX_BUFFER_SIZE + BUFFER_HEADER_SIZE && |more| >= 4 && flags < U32
    requires View(mem, Cells(rest)) == LE(flags, 4) + more
    ensures ParseOp(h, mem, rest) == Open(flags)
  {
    hide LE, UnLE, Pow256, Cells;
    Widths();
    assert (LE(flags, 4) + more)[0..4] == LE(flags, 4);
    UnLEOfLE(flags, 4);
  }
}
