/** From an abstract reply to guest memory: what `reply_ok`, `reply_error`, `read` and
    `readdir` leave in the writable chain, and what the guest finds there. */
module Replies {
  import opened GuestMemory
  import opened Chain
  import opened Cursor
  import opened Messages
  import opened FsModel
  import Inodes

  /** Ok(n): the handler returns n.  Err: it returns an error.  Panic: it unwinds. */
  datatype Outcome = Ok(len: nat) | Err | Panic

  /** As much of data as the cells can take. */
  function WriteSome(mem: Bytes, cells: seq<nat>, data: Bytes): (r: Bytes)
    ensures |r| == |mem|
  {
    Put(mem, cells, data[..Min(|data|, |cells|)])
  }

  /** `write_all` stops at the end of the chain: consecutive calls behave like one. */
  lemma WriteSomeMore(mem: Bytes, cells: seq<nat>, d1: Bytes, d2: Bytes)
    ensures |d1| <= |cells| ==>
              WriteSome(WriteSome(mem, cells, d1), cells[|d1|..], d2) == WriteSome(mem, cells, d1 + d2)
    ensures |d1| > |cells| ==> WriteSome(mem, cells, d1) == WriteSome(mem, cells, d1 + d2)
  {
    var d := d1 + d2;
    if |d1| <= |cells| {
      var n := Min(|d2|, |cells| - |d1|);
      assert d1[..|d1|] == d1;
      PutThenPut(mem, cells, d1, d2[..n]);
      assert d1 + d2[..n] == d[..Min(|d|, |cells|)];
    } else {
      assert d1[..|cells|] == d[..|cells|];
    }
  }

  /** Payload of a read reply that reaches the chain behind the header. */
  function Scattered(back: seq<Slice>, data: Bytes): (n: nat)
    ensures n <= |data| && n <= |Cells(back)|
  {
    PickCells(back, |data|);
    ScatterLen(Pick(back, |data|), |data|)
  }

  /** `read`: payload through the tail, then the header through the first 16 bytes. */
  function EmitData(mem: Bytes, front: seq<Slice>, back: seq<Slice>, unique: nat, data: Bytes): (Bytes, Outcome)
    requires |Cells(front)| == OUT_HEADER_SIZE
  {
    var mem1 := Put(mem, Cells(back), data[..Scattered(back, data)]);
    (Put(mem1, Cells(front), OutHeader(OUT_HEADER_SIZE + |data|, 0, unique)),
     Ok((OUT_HEADER_SIZE + |data|) % U32))
  }

  /** `readdir`: nothing past the end of the listing, otherwise every record; if they
      do not fit, an error header in front of what did. */
  function EmitListing(mem: Bytes, front: seq<Slice>, back: seq<Slice>, unique: nat,
                       at: nat, es: seq<DirEntry>): (Bytes, Outcome)
    requires |Cells(front)| == OUT_HEADER_SIZE
  {
    if at >= |es| then
      (Put(mem, Cells(front), OutHeader(OUT_HEADER_SIZE, 0, unique)), Ok(OUT_HEADER_SIZE))
    else
      var stream := Dirents(es);
      var mem1 := WriteSome(mem, Cells(back), stream);
      if |stream| <= |Cells(back)| then
        (Put(mem1, Cells(front), OutHeader(OUT_HEADER_SIZE + |stream|, 0, unique)),
         Ok((OUT_HEADER_SIZE + |stream|) % U32))
      else
        (Put(mem1, Cells(front), OutHeader(OUT_HEADER_SIZE, EIO, unique)), Ok(OUT_HEADER_SIZE))
  }

  function EmitAll(mem: Bytes, ws: seq<Slice>, reply: Bytes): (Bytes, Outcome) {
    (WriteSome(mem, Cells(ws), reply), if |reply| <= |Cells(ws)| then Ok(|reply|) else Err)
  }

  function ReplyBytes(body: Body, unique: nat): Bytes {
    OutHeader(OUT_HEADER_SIZE + |BodyBytes(body)|, 0, unique) + BodyBytes(body)
  }

  /** Memory and outcome after answering through the writable chain ws. */
  function Emit(mem: Bytes, ws: seq<Slice>, unique: nat, ans: Answer): (Bytes, Outcome) {
    match ans
    case Silent => (mem, Ok(0))
    case Abort => (mem, Err)
    case Crash => (mem, Panic)
    case Errno(code) => EmitAll(mem, ws, OutHeader(OUT_HEADER_SIZE, code, unique))
    case Reply(body) => EmitAll(mem, ws, ReplyBytes(body, unique))
    case Data(data) =>
      SplitCells(ws, OUT_HEADER_SIZE);
      (match Split(ws, OUT_HEADER_SIZE)
       case None => (mem, Panic)
       case Some((front, back)) => EmitData(mem, front, back, unique, data))
    case Listing(at, es) =>
      SplitCells(ws, OUT_HEADER_SIZE);
      (match Split(ws, OUT_HEADER_SIZE)
       case None => (mem, Panic)
       case Some((front, back)) => EmitListing(mem, front, back, unique, at, es))
  }

  // ---- what the guest finds -----------------------------------------------

  /** Length and error fields of the reply header, and the payload bytes placed
      behind it, when an answer is delivered. */
  function Laid(ws: seq<Slice>, ans: Answer): (nat, nat, Bytes) {
    var back := match Split(ws, OUT_HEADER_SIZE) case Some((_, b)) => b case None => [];
    match ans
    case Errno(code) => (OUT_HEADER_SIZE, code, [])
    case Reply(body) => (OUT_HEADER_SIZE + |BodyBytes(body)|, 0, BodyBytes(body))
    case Data(data) => (OUT_HEADER_SIZE + |data|, 0, data[..Scattered(back, data)])
    case Listing(at, es) =>
      if at >= |es| then (OUT_HEADER_SIZE, 0, [])
      else if |Dirents(es)| <= |Cells(back)| then (OUT_HEADER_SIZE + |Dirents(es)|, 0, Dirents(es))
      else (OUT_HEADER_SIZE, EIO, Dirents(es)[..|Cells(back)|])
    case _ => (0, 0, [])
  }

  /** The reply is one sequential write of its header and payload. */
  ghost predicate Sequential(mem: Bytes, ws: seq<Slice>, unique: nat, ans: Answer) {
    var (len, errno, payload) := Laid(ws, ans);
    var (mem', out) := Emit(mem, ws, unique, ans);
    && OUT_HEADER_SIZE + |payload| <= |Cells(ws)|
    && mem' == Put(mem, Cells(ws), OutHeader(len, errno, unique) + payload)
    && out == Ok(len % U32)
  }

  lemma EmitAllSequential(mem: Bytes, ws: seq<Slice>, unique: nat, len: nat, errno: nat, payload: Bytes)
    ensures var reply := OutHeader(len, errno, unique) + payload;
      |reply| <= |Cells(ws)| ==>
        EmitAll(mem, ws, reply) == (Put(mem, Cells(ws), reply), Ok(|reply|))
  {
    var reply := OutHeader(len, errno, unique) + payload;
    assert reply[..|reply|] == reply;
  }

  /** Even where the device writes the payload first, a delivered reply is the same as
      writing header and payload in order. */
  lemma EmitSequential(mem: Bytes, ws: seq<Slice>, unique: nat, ans: Answer)
    requires NoDup(Cells(ws)) && !ans.Silent? && Emit(mem, ws, unique, ans).1.Ok?
    ensures Sequential(mem, ws, unique, ans)
  {
    hide Put;
    hide OutHeader;
    hide BodyBytes;
    hide Dirents;
    match ans
    case Errno(code) =>
      EmitAllSequential(mem, ws, unique, OUT_HEADER_SIZE, code, []);
      assert OutHeader(OUT_HEADER_SIZE, code, unique) + [] == OutHeader(OUT_HEADER_SIZE, code, unique);
    case Reply(body) =>
      EmitAllSequential(mem, ws, unique, OUT_HEADER_SIZE + |BodyBytes(body)|, 0, BodyBytes(body));
    case Data(_) => SplitSequential(mem, ws, unique, ans);
    case Listing(_, _) => SplitSequential(mem, ws, unique, ans);
  }

  lemma SplitSequential(mem: Bytes, ws: seq<Slice>, unique: nat, ans: Answer)
    requires NoDup(Cells(ws)) && (ans.Data? || ans.Listing?) && Emit(mem, ws, unique, ans).1.Ok?
    ensures Sequential(mem, ws, unique, ans)
  {
    SplitCells(ws, OUT_HEADER_SIZE);
    var (front, back) := Split(ws, OUT_HEADER_SIZE).value;
    assert Cells(ws) == Cells(front) + Cells(back);
    var (len, errno, payload) := Laid(ws, ans);
    LaidPayload(mem, ws, unique, ans, front, back);
    OutOfOrder(mem, Cells(front), Cells(back), OutHeader(len, errno, unique), payload);
    hide Put;
    hide Emit;
    hide Laid;
    hide OutHeader;
    assert Sequential(mem, ws, unique, ans);
  }

  /** Data and listings: payload along the tail, header along the front. */
  lemma LaidPayload(mem: Bytes, ws: seq<Slice>, unique: nat, ans: Answer,
                    front: seq<Slice>, back: seq<Slice>)
    requires Split(ws, OUT_HEADER_SIZE) == Some((front, back)) && |Cells(front)| == OUT_HEADER_SIZE
    requires ans.Data? || ans.Listing?
    ensures var (len, errno, payload) := Laid(ws, ans);
      && |payload| <= |Cells(back)|
      && Emit(mem, ws, unique, ans)
         == (Put(Put(mem, Cells(back), payload), Cells(front), OutHeader(len, errno, unique)), Ok(len % U32))
  {
    hide Put;
    hide OutHeader;
    hide Dirents;
    hide BodyBytes;
    hide Cells;
    PutNothing(mem, Cells(back));
    if ans.Listing? {
      var stream := Dirents(ans.entries);
      assert stream[..|stream|] == stream;
    }
  }

  /** Framing of every delivered reply: the first 16 writable bytes hold a header that
      echoes the request and whose length is the value returned to the queue; behind
      it lie the payload and then whatever was there before; nothing else changed. */
  lemma Framing(mem: Bytes, ws: seq<Slice>, unique: nat, ans: Answer)
    requires NoDup(Cells(ws)) && Within(Cells(ws), |mem|)
    requires !ans.Silent? && Emit(mem, ws, unique, ans).1.Ok? && (ans.Errno? ==> ans.code < U32)
    ensures var (mem', out) := Emit(mem, ws, unique, ans);
            var (len, errno, payload) := Laid(ws, ans);
            var v := View(mem', Cells(ws));
      && |v| >= OUT_HEADER_SIZE
      && HeaderUnique(v) == unique % U64
      && HeaderLen(v) == out.len
      && HeaderError(v) == (U32 - errno) % U32
      && OUT_HEADER_SIZE + |payload| <= |v|
      && v[OUT_HEADER_SIZE..] == payload + View(mem, Cells(ws))[OUT_HEADER_SIZE + |payload|..]
      && forall a :: a !in Cells(ws) ==> ByteAt(mem', a) == ByteAt(mem, a)
  {
    EmitSequential(mem, ws, unique, ans);
    var (len, errno, payload) := Laid(ws, ans);
    var (mem', out) := Emit(mem, ws, unique, ans);
    assert mem' == Put(mem, Cells(ws), OutHeader(len, errno, unique) + payload) && out == Ok(len % U32);
    assert errno < U32;
    PutFramed(mem, Cells(ws), len, errno, unique, payload);
    hide *;
  }

  lemma PutLeaves(mem: Bytes, cells: seq<nat>, reply: Bytes)
    requires |reply| <= |cells|
    ensures forall a :: a !in cells ==> ByteAt(Put(mem, cells, reply), a) == ByteAt(mem, a)
  {
    forall a | a !in cells
      ensures ByteAt(Put(mem, cells, reply), a) == ByteAt(mem, a)
    {
      assert forall x :: x in cells[..|reply|] ==> x in cells;
      PutFrame(mem, cells, reply, a);
    }
  }

  lemma Regroup(v: Bytes, header: Bytes, payload: Bytes, before: Bytes)
    requires |header| + |payload| <= |before|
    requires v == header + payload + before[|header| + |payload|..]
    ensures v == header + (payload + before[|header| + |payload|..])
    ensures v[|header|..] == payload + before[|header| + |payload|..]
  {
  }

  lemma PutFramed(mem: Bytes, cells: seq<nat>, len: nat, errno: nat, unique: nat, payload: Bytes)
    requires NoDup(cells) && Within(cells, |mem|) && errno < U32
    requires OUT_HEADER_SIZE + |payload| <= |cells|
    ensures var mem' := Put(mem, cells, OutHeader(len, errno, unique) + payload);
            var v := View(mem', cells);
      && HeaderUnique(v) == unique % U64 && HeaderLen(v) == len % U32
      && HeaderError(v) == (U32 - errno) % U32
      && v[OUT_HEADER_SIZE..] == payload + View(mem, cells)[OUT_HEADER_SIZE + |payload|..]
      && forall a :: a !in cells ==> ByteAt(mem', a) == ByteAt(mem, a)
  {
    var header := OutHeader(len, errno, unique);
    var before := View(mem, cells);
    var reply := header + payload;
    var v := View(Put(mem, cells, reply), cells);
    ViewPut(mem, cells, reply);
    PutLeaves(mem, cells, reply);
    hide *;
    Regroup(v, header, payload, before);
    OutHeaderFields(len, errno, unique, payload + before[|reply|..]);
  }

  /** A listing that fits arrives intact, for every segmentation of the reply chain:
      the announced bytes decode to the entries, in order. */
  lemma ListingDelivered(mem: Bytes, ws: seq<Slice>, unique: nat, at: nat, es: seq<DirEntry>)
    requires NoDup(Cells(ws)) && Within(Cells(ws), |mem|)
    requires at < |es| && forall i :: 0 <= i < |es| ==> Encodable(es[i])
    requires OUT_HEADER_SIZE + |Dirents(es)| <= |Cells(ws)| && OUT_HEADER_SIZE + |Dirents(es)| < U32
    ensures var (mem', out) := Emit(mem, ws, unique, Listing(at, es));
            var v := View(mem', Cells(ws));
      && out == Ok(OUT_HEADER_SIZE + SumRecords(es))
      && |v| >= OUT_HEADER_SIZE && HeaderError(v) == 0
      && OUT_HEADER_SIZE <= HeaderLen(v) == out.len <= |v|
      && DecodeDirents(v[OUT_HEADER_SIZE..HeaderLen(v)]) == Some(es)
  {
    hide Put, OutHeader, Dirents, HeaderLen, HeaderError, HeaderUnique, Emit, Laid, Cells, NoDup, Within;
    hide DecodeDirents, SumRecords, Encodable;
    var ans, stream := Listing(at, es), Dirents(es);
    var (mem', out) := Emit(mem, ws, unique, ans);
    var v := View(mem', Cells(ws));
    ListingLaid(mem, ws, unique, at, es);
    Framing(mem, ws, unique, ans);
    DirentsLength(es);
    DirentsRoundTrip(es);
    var rest := View(mem, Cells(ws))[OUT_HEADER_SIZE + |stream|..];
    assert v[OUT_HEADER_SIZE..] == stream + rest;
    assert HeaderLen(v) == OUT_HEADER_SIZE + |stream|;
    Announced(v, stream, rest);
    assert (U32 - 0) % U32 == 0;
  }

  /** The bytes that a reply announces behind its header. */
  lemma Announced(v: Bytes, stream: Bytes, rest: Bytes)
    requires |v| >= OUT_HEADER_SIZE && v[OUT_HEADER_SIZE..] == stream + rest
    ensures |v| >= OUT_HEADER_SIZE + |stream| && v[OUT_HEADER_SIZE..OUT_HEADER_SIZE + |stream|] == stream
  {
    assert v[OUT_HEADER_SIZE..OUT_HEADER_SIZE + |stream|] == v[OUT_HEADER_SIZE..][..|stream|];
  }

  lemma ListingLaid(mem: Bytes, ws: seq<Slice>, unique: nat, at: nat, es: seq<DirEntry>)
    requires at < |es| && OUT_HEADER_SIZE + |Dirents(es)| <= |Cells(ws)|
    requires OUT_HEADER_SIZE + |Dirents(es)| < U32
    ensures Laid(ws, Listing(at, es)) == (OUT_HEADER_SIZE + |Dirents(es)|, 0, Dirents(es))
    ensures Emit(mem, ws, unique, Listing(at, es)).1 == Ok(OUT_HEADER_SIZE + |Dirents(es)|)
  {
    hide Put;
    hide OutHeader;
    hide Dirents;
    hide Cells;
    hide Split;
    hide BodyBytes;
    hide WriteSome;
    hide Scattered;
    SplitCells(ws, OUT_HEADER_SIZE);
  }

  /** For every offset: the guest decodes exactly the page that offset stands for. */
  lemma PageDelivered(mem: Bytes, ws: seq<Slice>, unique: nat, at: nat, es: seq<DirEntry>)
    requires NoDup(Cells(ws)) && Within(Cells(ws), |mem|) && OUT_HEADER_SIZE <= |Cells(ws)|
    requires forall i :: 0 <= i < |es| ==> Encodable(es[i])
    requires at < |es| ==>
               OUT_HEADER_SIZE + |Dirents(es)| <= |Cells(ws)| && OUT_HEADER_SIZE + |Dirents(es)| < U32
    ensures var v := View(Emit(mem, ws, unique, Listing(at, es)).0, Cells(ws));
      && OUT_HEADER_SIZE <= HeaderLen(v) <= |v| && HeaderError(v) == 0
      && DecodeDirents(v[OUT_HEADER_SIZE..HeaderLen(v)]) == Some(Inodes.Page(es, at))
  {
    if at < |es| {
      ListingDelivered(mem, ws, unique, at, es);
    } else {
      EmptyPage(mem, ws, unique, at, es);
    }
  }

  lemma EmptyPage(mem: Bytes, ws: seq<Slice>, unique: nat, at: nat, es: seq<DirEntry>)
    requires NoDup(Cells(ws)) && Within(Cells(ws), |mem|) && OUT_HEADER_SIZE <= |Cells(ws)|
    requires at >= |es|
    ensures var v := View(Emit(mem, ws, unique, Listing(at, es)).0, Cells(ws));
      HeaderLen(v) == OUT_HEADER_SIZE && HeaderError(v) == 0
  {
    hide Put;
    hide OutHeader;
    hide Dirents;
    hide Cells;
    hide BodyBytes;
    hide HeaderLen;
    hide HeaderError;
    SplitCells(ws, OUT_HEADER_SIZE);
    Framing(mem, ws, unique, Listing(at, es));
    assert (U32 - 0) % U32 == 0;
  }

  /** The nodeid the guest reads from a delivered entry. */
  lemma NodeidDelivered(mem: Bytes, ws: seq<Slice>, unique: nat, body: Body)
    requires NoDup(Cells(ws)) && Within(Cells(ws), |mem|) && (body.EntryBody? || body.CreateBody?)
    requires Emit(mem, ws, unique, Reply(body)).1.Ok?
    ensures var v := View(Emit(mem, ws, unique, Reply(body)).0, Cells(ws));
      |v| >= 24 && Field(v, 16, 8) == body.attr.ino % U64
  {
    hide Put, OutHeader, EntryOut, Cells, Field, Emit, Laid;
    hide HeaderLen, HeaderError, HeaderUnique;
    var ans := Reply(body);
    LaidReply(ws, body);
    var v := View(Emit(mem, ws, unique, ans).0, Cells(ws));
    Framing(mem, ws, unique, ans);
    var payload, head := BodyBytes(body), EntryOut(body.attr);
    assert Laid(ws, ans).2 == payload;
    assert payload == head + OrEmpty(BodyParts(body).1);
    var rest := View(mem, Cells(ws))[OUT_HEADER_SIZE + |payload|..];
    assert v[OUT_HEADER_SIZE..] == payload + rest;
    EntryNodeid(body.attr, OrEmpty(BodyParts(body).1) + rest);
    EntryField(v, head, OrEmpty(BodyParts(body).1), rest);
  }

  lemma LaidReply(ws: seq<Slice>, body: Body)
    ensures Laid(ws, Reply(body)) == (OUT_HEADER_SIZE + |BodyBytes(body)|, 0, BodyBytes(body))
  {
    hide BodyBytes, Cells, Split;
  }

  lemma EntryField(v: Bytes, head: Bytes, extra: Bytes, rest: Bytes)
    requires |v| >= 24 && |head| >= 8 && v[OUT_HEADER_SIZE..] == head + extra + rest
    ensures Field(v, 16, 8) == Field(head + (extra + rest), 0, 8)
  {
    assert v[16..24] == v[OUT_HEADER_SIZE..][0..8] == (head + (extra + rest))[0..8];
  }

  /** When the announced length is also the number of bytes placed. */
  ghost predicate Whole(ws: seq<Slice>, ans: Answer) {
    Laid(ws, ans).0 == OUT_HEADER_SIZE + |Laid(ws, ans).2|
  }

  /** Errors and structure replies are always whole; a read reply exactly when its data
      ends before the first empty slice behind the header; a listing exactly when its
      records fit (or none are due). */
  lemma WholeExactly(mem: Bytes, ws: seq<Slice>, unique: nat, ans: Answer)
    requires !ans.Silent? && Emit(mem, ws, unique, ans).1.Ok?
    ensures ans.Errno? || ans.Reply? ==> Whole(ws, ans)
    ensures ans.Data? ==>
              (Whole(ws, ans) <==>
                |ans.data| <= LeadingRoom(Split(ws, OUT_HEADER_SIZE).value.1))
    ensures ans.Data? && NoEmpty(ws) ==>
              (Whole(ws, ans) <==> OUT_HEADER_SIZE + |ans.data| <= |Cells(ws)|)
    ensures ans.Listing? ==>
              (Whole(ws, ans) <==>
                || ans.at >= |ans.entries|
                || OUT_HEADER_SIZE + |Dirents(ans.entries)| <= |Cells(ws)|
                || |Cells(ws)| == OUT_HEADER_SIZE)
  {
    SplitCells(ws, OUT_HEADER_SIZE);
    match ans
    case Data(data) =>
      var (front, back) := Split(ws, OUT_HEADER_SIZE).value;
      ScatterWhole(back, |data|);
      LeadingRoomAll(back);
    case _ =>
  }

  /** Room a reply needs to be delivered at all. */
  function RoomFor(ans: Answer): nat {
    match ans
    case Reply(body) => OUT_HEADER_SIZE + |BodyBytes(body)|
    case _ => OUT_HEADER_SIZE
  }

  /** When an answer is delivered rather than ending the device thread. */
  lemma EmitDelivers(mem: Bytes, ws: seq<Slice>, unique: nat, ans: Answer)
    ensures Emit(mem, ws, unique, ans).1.Ok? <==>
              ans.Silent? || (!ans.Abort? && !ans.Crash? && RoomFor(ans) <= |Cells(ws)|)
  {
    hide Put, OutHeader, BodyBytes, Dirents, Cells, WriteSome, Scattered;
    SplitCells(ws, OUT_HEADER_SIZE);
  }

  /** The guest gets the rest of the listing from its offset on exactly when the offset
      is 0 or past the end. */
  lemma PageReply(mem: Bytes, ws: seq<Slice>, unique: nat, at: nat, es: seq<DirEntry>)
    requires NoDup(Cells(ws)) && Within(Cells(ws), |mem|) && OUT_HEADER_SIZE <= |Cells(ws)|
    requires forall i :: 0 <= i < |es| ==> Encodable(es[i])
    requires at < |es| ==>
               OUT_HEADER_SIZE + |Dirents(es)| <= |Cells(ws)| && OUT_HEADER_SIZE + |Dirents(es)| < U32
    ensures var v := View(Emit(mem, ws, unique, Listing(at, es)).0, Cells(ws));
      && OUT_HEADER_SIZE <= HeaderLen(v) <= |v|
      && (DecodeDirents(v[OUT_HEADER_SIZE..HeaderLen(v)]) == Some(es[Min(at, |es|)..])
          <==> at == 0 || at >= |es|)
  {
    PageDelivered(mem, ws, unique, at, es);
    Inodes.PageIsSuffix(es, at);
    hide *;
  }

  /** 16 bytes, one byte, an empty slice, and n more bytes. */
  function Gapped(n: nat): seq<Slice> { [Slice(0, 16)] + [Slice(16, 1)] + [Slice(17, 0)] + [Slice(17, n)] }

  lemma GappedShape(n: nat)
    requires n > 0
    ensures |Cells(Gapped(n))| == 17 + n && forall i :: 0 <= i < 17 + n ==> Cells(Gapped(n))[i] == i
    ensures Split(Gapped(n), 16).Some? && LeadingRoom(Split(Gapped(n), 16).value.1) == 1
  {
    var a, b, c, d := Slice(0, 16), Slice(16, 1), Slice(17, 0), Slice(17, n);
    var tail := [b] + ([c] + ([d] + []));
    assert Gapped(n) == [a] + tail;
    CellsFirst(a, tail);
    CellsFirst(b, [c] + ([d] + []));
    CellsFirst(c, [d] + []);
    CellsFirst(d, []);
    assert Gapped(n)[1..] == tail && tail[1..] == [c] + ([d] + []);
    assert Split(tail, 0) == Some(([], tail));
    assert Split(Gapped(n), 16) == Some(([a] + [], tail));
  }

  /** Data behind an empty slice is lost although the header announces it: for any data
      of two bytes or more and a chain with room for it, only the first byte arrives. */
  lemma DroppedBehindEmpty(mem: Bytes, unique: nat, data: Bytes)
    requires |data| >= 2 && OUT_HEADER_SIZE + |data| <= |mem| && OUT_HEADER_SIZE + |data| < U32
    ensures var ws := Gapped(|data| - 1);
            var (mem', out) := Emit(mem, ws, unique, Data(data));
            var v := View(mem', Cells(ws));
      && out == Ok(OUT_HEADER_SIZE + |data|) && |v| == HeaderLen(v) == OUT_HEADER_SIZE + |data|
      && v[OUT_HEADER_SIZE..] == data[..1] + mem[OUT_HEADER_SIZE + 1..OUT_HEADER_SIZE + |data|]
  {
    hide Gapped, Put, OutHeader, HeaderLen, HeaderUnique, HeaderError, Cells, Split, LeadingRoom;
    var ws, ans := Gapped(|data| - 1), Data(data);
    GappedShape(|data| - 1);
    var cells, back := Cells(ws), Split(ws, OUT_HEADER_SIZE).value.1;
    ScatterWhole(back, |data|);
    EmitDelivers(mem, ws, unique, ans);
    Framing(mem, ws, unique, ans);
    assert Laid(ws, ans).2 == data[..1];
    assert View(mem, cells) == mem[..OUT_HEADER_SIZE + |data|];
  }

  // ---- writing a reply piece by piece -------------------------------------

  /** The writer has put exactly `done` through its original cells. */
  ghost predicate Wrote(w: Writer, mem0: Bytes, cells: seq<nat>, done: Bytes)
    reads w.buffer, w.mem
  {
    && w.Valid() && |done| <= |cells|
    && w.mem[..] == WriteSome(mem0, cells, done)
    && w.Room() == cells[|done|..]
  }

  /** One `write_all` of the pieces that make up a reply. */
  method WriteNext(w: Writer, data: Bytes, ghost mem0: Bytes, ghost cells: seq<nat>, ghost done: Bytes)
    returns (ok: bool)
    requires Wrote(w, mem0, cells, done)
    modifies w.buffer, w.mem
    ensures w.Valid()
    ensures w.mem[..] == WriteSome(mem0, cells, done + data)
    ensures ok <==> |done + data| <= |cells|
    ensures ok ==> Wrote(w, mem0, cells, done + data)
    ensures ok ==> w.buffer.bytesConsumed == old(w.buffer.bytesConsumed) + |data|
  {
    WriteSomeMore(mem0, cells, done, data);
    hide Put;
    hide Cells;
    ok := w.WriteAll(data);
  }

  lemma NothingWritten(w: Writer)
    requires w.Valid()
    ensures Wrote(w, w.mem[..], w.Room(), [])
  {
  }

  // ---- the reply methods --------------------------------------------------

  method ReplyError(unique: nat, w: Writer, errno: nat) returns (out: Outcome)
    requires w.Valid() && w.buffer.bytesConsumed == 0
    modifies w.buffer, w.mem
    ensures (w.mem[..], out) == Emit(old(w.mem[..]), old(w.buffer.buffers), unique, Errno(errno))
  {
    var ok := w.WriteAll(OutHeader(OUT_HEADER_SIZE, errno, unique));
    if !ok {
      return Err;
    }
    var n := w.BytesWritten();
    return Ok(n);
  }

  method ReplyOk(ghost body: Body, parts: (Option<Bytes>, Option<Bytes>), unique: nat, w: Writer)
    returns (result: Outcome)
    requires parts == BodyParts(body) && w.Valid() && w.buffer.bytesConsumed == 0
    modifies w.buffer, w.mem
    ensures (w.mem[..], result) == Emit(old(w.mem[..]), old(w.buffer.buffers), unique, Reply(body))
  {
    hide OutHeader, BodyParts, WriteSome, Put, Emit, Cells;
    var (out, data) := parts;
    var header := HeaderFor(out, data, unique);
    ReplyParts(w.mem[..], w.buffer.buffers, body, unique);
    NothingWritten(w);
    var ok := WriteParts(w, header, out, data, w.mem[..], w.Room());
    if !ok {
      return Err;
    }
    var n := w.BytesWritten();
    return Ok(n);
  }

  lemma ReplyParts(mem: Bytes, ws: seq<Slice>, body: Body, unique: nat)
    ensures var (out, data) := BodyParts(body);
            var header := OutHeader(OUT_HEADER_SIZE + |OrEmpty(out)| + |OrEmpty(data)|, 0, unique);
            var all := header + OrEmpty(out) + OrEmpty(data);
      Emit(mem, ws, unique, Reply(body)) ==
        (WriteSome(mem, Cells(ws), all), if |all| <= |Cells(ws)| then Ok(|all|) else Err)
  {
    hide OutHeader;
    hide BodyParts;
    hide WriteSome;
    hide Cells;
    var (out, data) := BodyParts(body);
    var header := OutHeader(OUT_HEADER_SIZE + |OrEmpty(out)| + |OrEmpty(data)|, 0, unique);
    assert ReplyBytes(body, unique) == header + OrEmpty(out) + OrEmpty(data);
  }

  /** Header, structure and data, one `write_all` after the other: running out of chain
      in the middle leaves what the whole reply would have left. */
  method WriteParts(w: Writer, header: Bytes, out: Option<Bytes>, data: Option<Bytes>,
                    ghost mem0: Bytes, ghost cells: seq<nat>)
    returns (ok: bool)
    requires Wrote(w, mem0, cells, [])
    modifies w.buffer, w.mem
    ensures var all := header + OrEmpty(out) + OrEmpty(data);
      && w.mem[..] == WriteSome(mem0, cells, all)
      && (ok <==> |all| <= |cells|)
      && (ok ==> w.buffer.bytesConsumed == old(w.buffer.bytesConsumed) + |all|)
  {
    ghost var two := header + OrEmpty(out);
    PartsPrefix(mem0, cells, header, OrEmpty(out), OrEmpty(data));
    assert [] + header == header;
    hide *;
    ok := WriteNext(w, header, mem0, cells, []);
    if !ok {
      return;
    }
    ok := WritePart(w, out, mem0, cells, header);
    if !ok {
      return;
    }
    ok := WritePart(w, data, mem0, cells, two);
  }

  lemma PartsPrefix(mem: Bytes, cells: seq<nat>, header: Bytes, out: Bytes, data: Bytes)
    ensures var all := header + out + data;
      && (|header| > |cells| ==> WriteSome(mem, cells, header) == WriteSome(mem, cells, all))
      && (|header + out| > |cells| ==> WriteSome(mem, cells, header + out) == WriteSome(mem, cells, all))
  {
    assert header + (out + data) == header + out + data;
    WriteSomeMore(mem, cells, header, out + data);
    WriteSomeMore(mem, cells, header + out, data);
    hide WriteSome;
  }

  /** An optional part of a reply: nothing, or one `write_all`. */
  method WritePart(w: Writer, part: Option<Bytes>, ghost mem0: Bytes, ghost cells: seq<nat>, ghost done: Bytes)
    returns (ok: bool)
    requires Wrote(w, mem0, cells, done)
    modifies w.buffer, w.mem
    ensures w.Valid()
    ensures w.mem[..] == WriteSome(mem0, cells, done + OrEmpty(part))
    ensures ok <==> |done + OrEmpty(part)| <= |cells|
    ensures ok ==> Wrote(w, mem0, cells, done + OrEmpty(part))
    ensures ok ==> w.buffer.bytesConsumed == old(w.buffer.bytesConsumed) + |OrEmpty(part)|
  {
    AppendPart(done, part);
    WroteAll(w, mem0, cells, done);
    if part.Some? {
      ok := WriteNext(w, part.value, mem0, cells, done);
    } else {
      ok := true;
    }
  }

  lemma AppendPart(done: Bytes, part: Option<Bytes>)
    ensures part.None? ==> done + OrEmpty(part) == done
    ensures part.Some? ==> done + OrEmpty(part) == done + part.value
  {
  }

  method HeaderFor(out: Option<Bytes>, data: Option<Bytes>, unique: nat) returns (header: Bytes)
    ensures header == OutHeader(OUT_HEADER_SIZE + |OrEmpty(out)| + |OrEmpty(data)|, 0, unique)
  {
    var len := OUT_HEADER_SIZE;
    if out.Some? {
      len := len + |out.value|;
    }
    if data.Some? {
      len := len + |data.value|;
    }
    header := OutHeader(len, 0, unique);
  }

  lemma WroteAll(w: Writer, mem0: Bytes, cells: seq<nat>, done: Bytes)
    requires Wrote(w, mem0, cells, done)
    ensures w.mem[..] == WriteSome(mem0, cells, done) && |done| <= |cells|
  {
  }

  lemma RecordPieces(done: Bytes, entry: DirEntry)
    ensures done + Dirent(entry) ==
              done + DirentHead(entry) + entry.name + Zeros(RecordLen(entry) - DIRENT_SIZE - |entry.name|)
  {
  }

  /** One record: header, name and padding; a record that does not fit still fills
      the chain.  `done` is what the stream already holds. */
  method ReplyAddDirEntry(cursor: Writer, entry: DirEntry,
                          ghost mem0: Bytes, ghost cells: seq<nat>, ghost done: Bytes)
    returns (r: Option<nat>)
    requires Wrote(cursor, mem0, cells, done)
    modifies cursor.buffer, cursor.mem
    ensures cursor.mem[..] == WriteSome(mem0, cells, done + Dirent(entry))
    ensures r == if |done| + RecordLen(entry) <= |cells| then Some(RecordLen(entry)) else None
    ensures r.Some? ==> Wrote(cursor, mem0, cells, done + Dirent(entry))
  {
    hide WriteSome, Wrote, DirentHead, Dirent, Align8, Zeros;
    var entryLen := DIRENT_SIZE + |entry.name|;
    var totalLen := Align8(entryLen);
    var head := DirentHead(entry);
    var padding := totalLen - entryLen;
    var pad := Zeros(padding);
    ghost var d1 := done + head;
    ghost var d2 := d1 + entry.name;
    ghost var d3 := d2 + pad;
    RecordPieces(done, entry);
    assert d3 == done + Dirent(entry);
    WriteSomeMore(mem0, cells, d1, entry.name + pad);
    assert d1 + (entry.name + pad) == d3;
    WriteSomeMore(mem0, cells, d2, pad);
    var ok := WriteNext(cursor, head, mem0, cells, done);
    if !ok {
      return None;
    }
    ok := WriteNext(cursor, entry.name, mem0, cells, d1);
    if !ok {
      return None;
    }
    if padding > 0 {
      ok := WriteNext(cursor, pad, mem0, cells, d2);
      if !ok {
        return None;
      }
    } else {
      assert d3 == d2;
    }
    WroteAll(cursor, mem0, cells, d3);
    return Some(totalLen);
  }
}
