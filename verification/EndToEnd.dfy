/** From the bytes a guest writes through one segmentation to the bytes it reads back
    through another. */
module EndToEnd {
  import opened GuestMemory
  import opened Chain
  import opened Cursor
  import opened Messages
  import opened Requests
  import opened FsModel
  import opened Inodes
  import opened Sessions
  import opened Replies
  import opened Handlers

  /** One request-reply pair at the byte level: guest memory when the device picks the
      chain up, the two halves of the chain, and the backend's answers.  Between
      exchanges the guest may do anything to its memory. */
  datatype Exchange = Exchange(mem: Bytes, readable: seq<Slice>, writable: seq<Slice>, env: Env)

  function Request(x: Exchange): Bytes { View(x.mem, Cells(x.readable)) }

  function EventOf(x: Exchange): Event {
    Event(Parse(x.mem, x.readable), x.env, |Cells(x.writable)|)
  }

  function Events(xs: seq<Exchange>): (es: seq<Event>)
    ensures |es| == |xs|
  {
    seq(|xs|, i requires 0 <= i < |xs| => EventOf(xs[i]))
  }

  /** The state after serving byte-level exchanges one after the other. */
  function ServeAll(st: State, xs: seq<Exchange>): State
    decreases |xs|
  {
    if xs == [] then st
    else ServeAll(Serve(st, xs[0].env, xs[0].mem, xs[0].readable, xs[0].writable).0, xs[1..])
  }

  lemma {:induction false} ServeAllRuns(st: State, xs: seq<Exchange>)
    ensures ServeAll(st, xs) == Run(st, Events(xs))
    decreases |xs|
  {
    if xs != [] {
      assert Events(xs)[1..] == Events(xs[1..]);
      ServeAllRuns(After(st, EventOf(xs[0])), xs[1..]);
    }
  }

  /** What the guest put behind the fixed part of a write request. */
  function Sent(x: Exchange): Bytes {
    var all := Request(x);
    if |all| < IN_HEADER_SIZE + IO_IN_SIZE then [] else all[IN_HEADER_SIZE + IO_IN_SIZE..]
  }

  lemma WriteData(x: Exchange)
    requires PayloadBounded(Request(x)) && EventOf(x).msg.op.Write?
    ensures EventOf(x).msg.op.data == Sent(x)
  {
    var all := Request(x);
    ViewAfter(x.mem, x.readable, IN_HEADER_SIZE);
    var rest := AfterExact(x.readable, IN_HEADER_SIZE);
    var left := View(x.mem, Cells(rest));
    assert left == all[IN_HEADER_SIZE..];
    assert all[..IN_HEADER_SIZE][4..8] == all[4..8];
    SubField(all, IN_HEADER_SIZE, 16, 4);
    OpIsWrite(ParseHeader(all[..IN_HEADER_SIZE]), x.mem, rest);
    PayloadFlat(x.mem, rest, Field(left, 16, 4));
    assert all[IN_HEADER_SIZE..][IO_IN_SIZE..] == Sent(x);
  }

  lemma OpIsWrite(h: InHeader, mem: Bytes, rest: seq<Slice>)
    requires ParseOp(h, mem, rest).Write?
    ensures h.opcode == 16 && |Cells(rest)| >= IO_IN_SIZE
    ensures var left := View(mem, Cells(rest));
      ParseOp(h, mem, rest).data == Payload(mem, rest, Field(left, 16, 4))
  {
    hide Payload;
    hide Field;
    hide NameOf;
  }

  /** The exchange is a write to p that the device accepted. */
  predicate AcceptedWrite(st: State, x: Exchange, p: Path) { Observe(st, EventOf(x), p).Wrote? }

  /** All bytes the guest sent in accepted writes to p, in order. */
  function AllSent(st: State, xs: seq<Exchange>, p: Path): Bytes
    decreases |xs|
  {
    if xs == [] then []
    else
      (if AcceptedWrite(st, xs[0], p) then Sent(xs[0]) else [])
      + AllSent(After(st, EventOf(xs[0])), xs[1..], p)
  }

  lemma ObservedWrite(st: State, x: Exchange, p: Path)
    requires AcceptedWrite(st, x, p)
    ensures EventOf(x).msg.op.Write?
    ensures Observe(st, EventOf(x), p).rec.data == EventOf(x).msg.op.data
  {
    hide Parse;
    hide Step;
  }

  lemma {:induction false} ConcatFirst(w: WriteRec, ws: seq<WriteRec>)
    ensures Concat([w] + ws) == w.data + Concat(ws)
  {
    var all := [w] + ws;
    if ws == [] {
      assert all[..0] == [];
    } else {
      var n := |ws| - 1;
      assert all[..|all| - 1] == [w] + ws[..n];
      ConcatFirst(w, ws[..n]);
    }
  }

  /** The accepted data of a run is what the guest sent, whatever the segmentation. */
  lemma {:induction false} AcceptedIsSent(st: State, xs: seq<Exchange>, p: Path)
    requires forall i :: 0 <= i < |xs| ==> PayloadBounded(Request(xs[i]))
    ensures Concat(Accepted(st, Events(xs), p)) == AllSent(st, xs, p)
    decreases |xs|
  {
    hide Observe;
    hide Step;
    hide Parse;
    hide Sent;
    hide Request;
    if xs != [] {
      assert Events(xs)[1..] == Events(xs[1..]) && Events(xs)[0] == EventOf(xs[0]);
      var act := Observe(st, EventOf(xs[0]), p);
      var rest := Accepted(After(st, EventOf(xs[0])), Events(xs[1..]), p);
      AcceptedIsSent(After(st, EventOf(xs[0])), xs[1..], p);
      if act.Wrote? {
        ObservedWrite(st, xs[0], p);
        WriteData(xs[0]);
        ConcatFirst(act.rec, rest);
      } else {
        assert [] + rest == rest;
      }
    }
  }

  /** A read answered with data, into a reply chain that has room, repeats no cell and
      has no empty slice, shows the guest a header and exactly the data. */
  lemma ReadDelivered(st: State, x: Exchange, data: Bytes)
    requires AnswerTo(st, EventOf(x)) == Data(data)
    requires NoDup(Cells(x.writable)) && Within(Cells(x.writable), |x.mem|) && NoEmpty(x.writable)
    requires OUT_HEADER_SIZE + |data| <= |Cells(x.writable)| && OUT_HEADER_SIZE + |data| < U32
    ensures var (_, mem', out) := Serve(st, x.env, x.mem, x.readable, x.writable);
            var cells := Cells(x.writable);
      && out == Ok(OUT_HEADER_SIZE + |data|)
      && View(mem', cells) ==
           OutHeader(OUT_HEADER_SIZE + |data|, 0, EventOf(x).msg.unique) + data
           + View(x.mem, cells)[OUT_HEADER_SIZE + |data|..]
  {
    var msg := Parse(x.mem, x.readable);
    var ws, size := x.writable, OUT_HEADER_SIZE + |data|;
    var (st', ans) := Step(st, msg, x.env, |Cells(ws)|);
    Concludes(st, msg, x.env, x.mem, ws, st', ans);
    DataWhole(x.mem, ws, msg.unique, data);
    ViewPut(x.mem, Cells(ws), OutHeader(size, 0, msg.unique) + data);
    assert Serve(st, x.env, x.mem, x.readable, ws) == Answered(st, msg, x.env, x.mem, ws);
    hide *;
    assert |OutHeader(size, 0, msg.unique) + data| == size;
  }

  /** Data that fits is delivered whole. */
  lemma DataWhole(mem: Bytes, ws: seq<Slice>, unique: nat, data: Bytes)
    requires NoDup(Cells(ws)) && NoEmpty(ws)
    requires OUT_HEADER_SIZE + |data| <= |Cells(ws)| && OUT_HEADER_SIZE + |data| < U32
    ensures Emit(mem, ws, unique, Data(data)) ==
              (Put(mem, Cells(ws), OutHeader(OUT_HEADER_SIZE + |data|, 0, unique) + data),
               Ok(OUT_HEADER_SIZE + |data|))
  {
    hide Put;
    hide OutHeader;
    SplitCells(ws, OUT_HEADER_SIZE);
    EmitSequential(mem, ws, unique, Data(data));
    var back := Split(ws, OUT_HEADER_SIZE).value.1;
    ScatterWhole(back, |data|);
    assert Laid(ws, Data(data)).2 == data[..|data|] == data;
  }

  /** The round trip, from every reachable state.  After a writing open of p, any
      exchanges that neither reopen nor release p, an accepted release, and any
      exchanges that leave p's object alone, a read inside the file that the backend
      serves delivers, behind its header, exactly the base content followed by the
      bytes sent in the accepted writes, from the read offset on -- for every
      segmentation of every request and of the reply. */
  lemma RoundTrip(norm: Path -> Path, objects: map<Path, Bytes>, before: seq<Exchange>, p: Path,
                  open: Exchange, xs: seq<Exchange>, release: Exchange, ys: seq<Exchange>, read: Exchange)
    requires forall i :: 0 <= i < |xs| ==> PayloadBounded(Request(xs[i]))
    requires var st0 := ServeAll(Empty(norm, objects), before);
             var st1 := After(st0, EventOf(open));
             var st2 := ServeAll(st1, xs);
             var st3 := After(st2, EventOf(release));
             var st4 := ServeAll(st3, ys);
      && Observe(st0, EventOf(open), p).Opened?
      && SessionStaysOpen(st1, Events(xs), p)
      && Observe(st2, EventOf(release), p).Closed?
      && ObjectLeftAlone(st3, Events(ys), norm(p))
      && EventOf(read).msg.op.Read? && PathOf(st4, EventOf(read).msg.nodeid) == Some(p)
      && read.env.readOk
    requires var st0 := ServeAll(Empty(norm, objects), before);
             var content := Observe(st0, EventOf(open), p).base + AllSent(After(st0, EventOf(open)), xs, p);
             var size := OUT_HEADER_SIZE + |content| - EventOf(read).msg.op.offset;
      && EventOf(read).msg.op.offset <= |content|
      && size <= |Cells(read.writable)| && size < U32
    requires NoDup(Cells(read.writable)) && Within(Cells(read.writable), |read.mem|) && NoEmpty(read.writable)
    ensures var st0 := ServeAll(Empty(norm, objects), before);
            var st1 := After(st0, EventOf(open));
            var st4 := ServeAll(After(ServeAll(st1, xs), EventOf(release)), ys);
            var content := Observe(st0, EventOf(open), p).base + AllSent(st1, xs, p);
            var data := content[EventOf(read).msg.op.offset..];
            var (_, mem', out) := Serve(st4, read.env, read.mem, read.readable, read.writable);
            var cells := Cells(read.writable);
      && out == Ok(OUT_HEADER_SIZE + |data|)
      && View(mem', cells) ==
           OutHeader(OUT_HEADER_SIZE + |data|, 0, EventOf(read).msg.unique) + data
           + View(read.mem, cells)[OUT_HEADER_SIZE + |data|..]
  {
    var start := Empty(norm, objects);
    var st0 := ServeAll(start, before);
    ServeAllRuns(start, before);
    RunHolds(start, Events(before), p, None);
    RunKeepsNorm(start, Events(before));
    var cur := Track(start, Events(before), p, None);
    var e := EventOf(open);
    var st1 := After(st0, e);
    var st2 := ServeAll(st1, xs);
    var st3 := After(st2, EventOf(release));
    ServeAllRuns(st1, xs);
    ServeAllRuns(st3, ys);
    var st4 := ServeAll(st3, ys);
    StepKeepsNorm(st0, e);
    RunKeepsNorm(st1, Events(xs));
    StepKeepsNorm(st2, EventOf(release));
    AcceptedIsSent(st1, xs, p);
    hide *;
    ReadServed(st0, e, Events(xs), EventOf(release), Events(ys), EventOf(read), p, cur);
    var content := Observe(st0, e, p).base + AllSent(st1, xs, p);
    ReadDelivered(st4, read, content[EventOf(read).msg.op.offset..]);
  }

  lemma {:induction false} RunKeepsNorm(st: State, es: seq<Event>)
    ensures Run(st, es).norm == st.norm
    decreases |es|
  {
    if es != [] {
      StepKeepsNorm(st, es[0]);
      RunKeepsNorm(After(st, es[0]), es[1..]);
    }
  }

  /** The same at the level of states: the read inside the file succeeds and yields the
      suffix of the committed content. */
  lemma ReadServed(st: State, open: Event, es: seq<Event>, release: Event,
                   fs: seq<Event>, read: Event, p: Path, cur: Option<Session>)
    requires Holds(st, p, cur) && Observe(st, open, p).Opened?
    requires var st1 := After(st, open);
             var st2 := Run(st1, es);
             var st3 := After(st2, release);
             var st4 := Run(st3, fs);
      && SessionStaysOpen(st1, es, p)
      && Observe(st2, release, p).Closed?
      && ObjectLeftAlone(st3, fs, st3.norm(p))
      && read.msg.op.Read? && PathOf(st4, read.msg.nodeid) == Some(p) && read.env.readOk
      && read.msg.op.offset <= |Observe(st, open, p).base + Concat(Accepted(st1, es, p))|
    ensures var st1 := After(st, open);
            var st4 := Run(After(Run(st1, es), release), fs);
            var content := Observe(st, open, p).base + Concat(Accepted(st1, es, p));
      AnswerTo(st4, read) == Data(content[read.msg.op.offset..])
  {
    hide Run;
    hide After;
    hide AnswerTo;
    hide Observe;
    hide Accepted;
    hide Concat;
    hide PwriteAll;
    hide ObjectLeftAlone;
    hide SessionStaysOpen;
    hide Holds;
    CommittedContent(st, open, es, release, fs, p, cur);
    var st4 := Run(After(Run(After(st, open), es), release), fs);
    ReadStep(st4, read, p);
  }

  /** `read` ignores the size it is asked for: it answers with the rest of the object,
      which stays within the requested size only if the object ends there. */
  lemma ReadIgnoresSize(st: State, x: Exchange, p: Path, len: nat, unique: nat, nodeid: nat,
                        caller: Bytes, fh: Bytes, offset: nat, size: nat, more: Bytes, junk: Bytes)
    requires len <= MAX_BUFFER_SIZE + BUFFER_HEADER_SIZE && unique < U64 && nodeid < U64
    requires |caller| == 16 && |fh| == 8 && |more| == 20 && offset < U64 && size < U32
    requires Request(x) == RequestBytes(len, 15, unique, nodeid, caller, IoIn(fh, offset, size, more) + junk)
    requires PathOf(st, nodeid) == Some(p) && x.env.readOk && st.norm(p) in st.objects
    requires offset <= |st.objects[st.norm(p)]|
    ensures var content := st.objects[st.norm(p)];
      && AnswerTo(st, EventOf(x)) == Data(content[offset..])
      && (|AnswerTo(st, EventOf(x)).data| <= size <==> |content| <= offset + size)
  {
    ParseReadRequest(x.mem, x.readable, len, unique, nodeid, caller, fh, offset, size, more, junk);
    hide Parse;
    hide RequestBytes;
    hide IoIn;
    assert EventOf(x).msg == Msg(unique, nodeid, Read(offset));
    assert AnswerTo(st, EventOf(x)) == ReadOp(st, x.env, p, offset).1;
  }

  // ---- reading a directory ------------------------------------------------

  /** What the guest makes of a directory reply: the entries of a header without error
      and the bytes it announces. */
  ghost function Decoded(mem: Bytes, ws: seq<Slice>): Option<seq<DirEntry>> {
    var v := View(mem, Cells(ws));
    if |v| < OUT_HEADER_SIZE || HeaderError(v) != 0 || !(OUT_HEADER_SIZE <= HeaderLen(v) <= |v|) then None
    else DecodeDirents(v[OUT_HEADER_SIZE..HeaderLen(v)])
  }

  /** The exchange asks for the directory p from offset `at` on, the backend lists es,
      and the reply chain has room for these entries. */
  ghost predicate Lists(st: State, x: Exchange, p: Path, es: seq<Listed>, at: nat, ds: seq<DirEntry>) {
    && EventOf(x).msg.op == Readdir(Some(at)) && PathOf(st, EventOf(x).msg.nodeid) == Some(p)
    && x.env.listing == Some(es)
    && NoDup(Cells(x.writable)) && Within(Cells(x.writable), |x.mem|)
    && OUT_HEADER_SIZE + SumRecords(ds) <= |Cells(x.writable)| && OUT_HEADER_SIZE + SumRecords(ds) < U32
  }

  /** The entries of p in a state: with their inodes, those known and those filed now. */
  function EntriesOf(st: State, p: Path, es: seq<Listed>): seq<DirEntry> { ListEntries(st, p, es, 0).1 }

  lemma {:induction false} RecordsCounted(ds: seq<DirEntry>)
    ensures |ds| <= SumRecords(ds) && forall i :: 0 <= i < |ds| ==> RecordLen(ds[i]) <= SumRecords(ds)
  {
    if ds != [] {
      RecordsCounted(ds[1..]);
      assert forall i :: 1 <= i < |ds| ==> ds[i] == ds[1..][i - 1];
    }
  }

  /** In a stream shorter than 2^32 every entry fits its field widths. */
  lemma EntriesEncodable(st: State, p: Path, es: seq<Listed>)
    requires TableInv(st) && st.slab != []
    requires SumRecords(EntriesOf(st, p, es)) < U32 && |ListEntries(st, p, es, 0).0.slab| <= U64
    ensures forall i :: 0 <= i < |EntriesOf(st, p, es)| ==> Encodable(EntriesOf(st, p, es)[i])
  {
    hide TableInv, ListEntries, SumRecords;
    var ds := EntriesOf(st, p, es);
    RecordsCounted(ds);
    ListEntriesInv(st, p, es, 0);
    forall i | 0 <= i < |ds| ensures Encodable(ds[i]) {
      ListEntriesReport(st, p, es, 0, i);
      assert ds[i - 0] == ds[i];
    }
  }

  /** One directory exchange: the guest decodes the page of its offset, and the listed
      children are filed. */
  lemma DirectoryPage(st: State, x: Exchange, p: Path, es: seq<Listed>, at: nat)
    requires TableInv(st) && Lists(st, x, p, es, at, EntriesOf(st, p, es))
    requires forall i :: 0 <= i < |EntriesOf(st, p, es)| ==> Encodable(EntriesOf(st, p, es)[i])
    ensures var (st', mem', out) := Serve(st, x.env, x.mem, x.readable, x.writable);
      && out.Ok? && st' == ListEntries(st, p, es, 0).0
      && Decoded(mem', x.writable) == Some(Page(EntriesOf(st, p, es), at))
  {
    hide TableInv, ListEntries, Parse, Step, Emit, Cells, Dirents, SumRecords, NoDup, Within, HeaderLen, HeaderError;
    var ds, ws := EntriesOf(st, p, es), x.writable;
    var msg := Parse(x.mem, x.readable);
    ReaddirStep(st, msg.unique, msg.nodeid, at, x.env, |Cells(ws)|);
    Concludes(st, msg, x.env, x.mem, ws, ListEntries(st, p, es, 0).0, Listing(at, ds));
    DirentsLength(ds);
    PageDelivered(x.mem, ws, msg.unique, at, ds);
    EmitDelivers(x.mem, ws, msg.unique, Listing(at, ds));
  }

  /** Reading a directory over two exchanges, each cut at will, with any run in between
      that leaves the children's keys alone.  The first reply decodes to every entry, in
      order, with offsets 1, 2, ... and inodes that name the children from then on; the
      second to the same entries under the same inodes or, from the last offset on, to
      none, and it changes nothing. */
  lemma DirectoryRun(st: State, p: Path, es: seq<Listed>, x: Exchange, ms: seq<Exchange>, y: Exchange, at: nat)
    requires TableInv(st) && Lists(st, x, p, es, 0, EntriesOf(st, p, es))
    requires var st1 := After(st, EventOf(x));
             var st2 := ServeAll(st1, ms);
      && |st1.slab| <= U64
      && Lists(st2, y, p, es, at, EntriesOf(st, p, es))
      && forall i :: 0 <= i < |es| ==> Undisturbed(st1, Events(ms), ListedKey(p, es[i].name))
    ensures var (st1, mem1, out1) := Serve(st, x.env, x.mem, x.readable, x.writable);
            var st2 := ServeAll(st1, ms);
            var (st3, mem2, out2) := Serve(st2, y.env, y.mem, y.readable, y.writable);
            var ds := EntriesOf(st, p, es);
      && Decoded(mem1, x.writable) == Some(ds)
      && Decoded(mem2, y.writable) == Some(if at < |es| then ds else []) && st3 == st2
      && |ds| == |es|
      && forall i :: 0 <= i < |es| ==>
           && ds[i].off == i + 1 && ds[i].name == ShownName(es[i].name)
           && PathOf(st3, ds[i].ino) == Some(ListedKey(p, es[i].name))
  {
    hide TableInv, ListEntries, Serve, Parse, Encodable, Decoded, SumRecords, NoDup, Within, Cells, Undisturbed, Run;
    var ds, st1 := EntriesOf(st, p, es), After(st, EventOf(x));
    EntriesEncodable(st, p, es);
    DirectoryPage(st, x, p, es, 0);
    assert Page(ds, 0) == ds;
    ListEntriesInv(st, p, es, 0);
    ServeAllRuns(st1, ms);
    var st2 := ServeAll(st1, ms);
    RunInv(st1, Events(ms));
    forall i | 0 <= i < |es| ensures SameInode(st1, st2, ListedKey(p, es[i].name)) {
      if ListedKey(p, es[i].name) in st1.inodes {
        RunKeeps(st1, Events(ms), ListedKey(p, es[i].name));
      }
    }
    RelistSame(st, st2, p, es, 0);
    DirectoryPage(st2, y, p, es, at);
    forall i | 0 <= i < |es|
      ensures ds[i].off == i + 1 && ds[i].name == ShownName(es[i].name)
      ensures PathOf(st2, ds[i].ino) == Some(ListedKey(p, es[i].name))
    {
      ListEntriesReport(st, p, es, 0, i);
      assert ds[i - 0] == ds[i];
    }
  }
}
