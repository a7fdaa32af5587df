/** One session at the byte level, from the guest's first request to the bytes it reads
    back, with every request cut in two at an arbitrary place. */
module Scenario {
  import opened GuestMemory
  import opened Chain
  import opened Cursor
  import opened Messages
  import opened Requests
  import opened FsModel
  import opened Inodes
  import opened Sessions
  import opened Replies
  import opened Handlers
  import opened EndToEnd

  /** A request followed in memory by room for the reply: the request in two slices, the
      reply in two slices that cut its header. */
  function Talk(bytes: Bytes, cut: nat, env: Env): Exchange
  {
    var first := Min(cut, |bytes|);
    Exchange(bytes + Zeros(4096),
             [Slice(0, first)] + [Slice(first, |bytes| - first)],
             [Slice(|bytes|, 10)] + [Slice(|bytes| + 10, 4086)], env)
  }

  lemma TwoSlices(a: Slice, b: Slice)
    requires a.addr + a.len == b.addr
    ensures Cells([a] + [b]) == Range(a.addr, a.len + b.len)
  {
    CellsFirst(a, [b] + []);
    CellsFirst(b, []);
    assert [b] + [] == [b];
  }

  lemma TalkChains(bytes: Bytes, cut: nat, env: Env)
    ensures var x := Talk(bytes, cut, env);
      && Request(x) == bytes && Cells(x.writable) == Range(|bytes|, 4096)
      && NoDup(Cells(x.writable)) && Within(Cells(x.writable), |x.mem|) && NoEmpty(x.writable)
      && x.env == env
  {
    hide Cells;
    var x, n := Talk(bytes, cut, env), |bytes|;
    TwoSlices(Slice(0, Min(cut, n)), Slice(Min(cut, n), n - Min(cut, n)));
    TwoSlices(Slice(n, 10), Slice(n + 10, 4086));
    assert View(x.mem, Range(0, n)) == bytes;
  }

  /** A backend on which every call succeeds and every path is a file. */
  function Willing(): Env { Env(true, true, true, false, 0, true, true, true, true, true, true, true, None) }

  // ---- the requests -------------------------------------------------------

  const NAME: Bytes := [97]

  function Caller(): (r: Bytes) ensures |r| == 16 { Zeros(16) }

  function InitAsk(): (r: Bytes) {
    RequestBytes(56, 26, 1, 0, Caller(), LE(7, 4) + LE(38, 4) + Zeros(8))
  }

  function CreateAsk(): Bytes {
    RequestBytes(58, 35, 2, 1, Caller(), LE(O_WRONLY, 4) + Zeros(12) + (NAME + [0] + []))
  }

  function WriteAsk(unique: nat, offset: nat, data: Bytes): Bytes {
    RequestBytes(80 + |data|, 16, unique, 2, Caller(), IoIn(Zeros(8), offset, |data|, Zeros(20)) + data)
  }

  function ReleaseAsk(): Bytes { RequestBytes(40, 18, 6, 2, Caller(), []) }

  /** The three writes: two bytes, one at a wrong offset, one more byte. */
  function WriteTalks(cut: nat): seq<Exchange> {
    [Talk(WriteAsk(3, 0, [10, 11]), cut, Willing())]
    + ([Talk(WriteAsk(4, 0, [99]), cut, Willing())] + ([Talk(WriteAsk(5, 2, [12]), cut, Willing())] + []))
  }

  /** Asks for one byte only. */
  function ReadAsk(): Bytes {
    RequestBytes(80, 15, 7, 2, Caller(), IoIn(Zeros(8), 1, 1, Zeros(20)) + [])
  }

  lemma InitEvent(cut: nat)
    ensures EventOf(Talk(InitAsk(), cut, Willing())) == Ask(1, 0, Init(7, 38), Willing())
  {
    var x := Talk(InitAsk(), cut, Willing());
    TalkChains(InitAsk(), cut, Willing());
    hide Parse, RequestBytes, LE, Zeros, Cells;
    ParseInitRequest(x.mem, x.readable, 56, 1, 0, Caller(), 7, 38, Zeros(8));
  }

  lemma CreateFields()
    ensures Field(LE(O_WRONLY, 4) + Zeros(12), 0, 4) == O_WRONLY
    ensures Utf8(NAME) && 0 !in NAME
  {
    assert Utf8(NAME[1..]);
    hide LE, Zeros, Field, Pow256, Utf8;
    Widths();
    FieldOfLE([], O_WRONLY, 4, Zeros(12));
    assert [] + LE(O_WRONLY, 4) == LE(O_WRONLY, 4);
  }

  lemma CreateEvent(cut: nat)
    ensures EventOf(Talk(CreateAsk(), cut, Willing())) == Ask(2, 1, Create(O_WRONLY, NAME), Willing())
  {
    var x, fixed := Talk(CreateAsk(), cut, Willing()), LE(O_WRONLY, 4) + Zeros(12);
    TalkChains(CreateAsk(), cut, Willing());
    CreateFields();
    hide Parse, RequestBytes, LE, Zeros, Cells, Utf8, Field;
    ParseNamedRequest(x.mem, x.readable, 35, 2, 1, Caller(), fixed, NAME, []);
  }

  lemma WriteEvent(unique: nat, offset: nat, data: Bytes, cut: nat)
    requires unique < U64 && offset < U64 && |data| <= MAX_BUFFER_SIZE
    ensures EventOf(Talk(WriteAsk(unique, offset, data), cut, Willing()))
         == Ask(unique, 2, Write(offset, |data|, data), Willing())
    ensures PayloadBounded(Request(Talk(WriteAsk(unique, offset, data), cut, Willing())))
    ensures Sent(Talk(WriteAsk(unique, offset, data), cut, Willing())) == data
  {
    var x := Talk(WriteAsk(unique, offset, data), cut, Willing());
    var body := IoIn(Zeros(8), offset, |data|, Zeros(20)) + data;
    TalkChains(WriteAsk(unique, offset, data), cut, Willing());
    hide Parse, RequestBytes, IoIn, LE, Zeros, Cells, Field;
    ParseWriteRequest(x.mem, x.readable, 80 + |data|, unique, 2, Caller(), Zeros(8), offset, Zeros(20), data);
    HeaderRoundTrip(80 + |data|, 16, unique, 2, Caller(), body);
    IoInRoundTrip(Zeros(8), offset, |data|, Zeros(20), data);
    SubField(Request(x), IN_HEADER_SIZE, 16, 4);
    assert Request(x)[IN_HEADER_SIZE + IO_IN_SIZE..] == Request(x)[IN_HEADER_SIZE..][IO_IN_SIZE..];
  }

  lemma ReleaseEvent(cut: nat)
    ensures EventOf(Talk(ReleaseAsk(), cut, Willing())) == Ask(6, 2, Release, Willing())
  {
    var x := Talk(ReleaseAsk(), cut, Willing());
    TalkChains(ReleaseAsk(), cut, Willing());
    hide Parse, ParseOp, RequestBytes, LE, Zeros, Cells, Field;
    RequestOpened(x.mem, x.readable, InHeader(40, 18, 6, 2), Caller(), []);
    ReleaseOpcode(InHeader(40, 18, 6, 2), x.mem, AfterExact(x.readable, IN_HEADER_SIZE));
  }

  lemma ReleaseOpcode(h: InHeader, mem: Bytes, rest: seq<Slice>)
    requires h.opcode == 18 && h.len == 40
    ensures ParseOp(h, mem, rest) == Release
  {
  }

  lemma ReadEvent(cut: nat)
    ensures EventOf(Talk(ReadAsk(), cut, Willing())) == Ask(7, 2, Read(1), Willing())
  {
    var x := Talk(ReadAsk(), cut, Willing());
    TalkChains(ReadAsk(), cut, Willing());
    hide Parse, RequestBytes, IoIn, LE, Zeros, Cells;
    ParseReadRequest(x.mem, x.readable, 80, 1 + 6, 2, Caller(), Zeros(8), 1, 1, Zeros(20), []);
  }

  // ---- the session --------------------------------------------------------

  lemma WriteSeen(st: State, e: Event, p: Path)
    requires e.msg.op.Write? && e.env.writeOk && PathOf(st, e.msg.nodeid) == Some(p) && p in st.writers
    ensures var w, op := st.writers[p], e.msg.op;
      if op.offset == w.written then
        && Observe(st, e, p) == Wrote(WriteRec(op.offset, op.data))
        && After(st, e) ==
             st.(writers := st.writers[p := InnerWriter(w.base, w.data + op.data, w.written + |op.data|)])
      else Observe(st, e, p) == Other && After(st, e) == st
  {
    WriteStep(st, e, p);
    hide Step;
  }

  lemma CreateSeen(norm: Path -> Path)
    ensures var st := After(Empty(norm, map[]), Ask(1, 0, Init(7, 38), Willing()));
            var e, p := Ask(2, 1, Create(O_WRONLY, NAME), Willing()), Join(ROOT, NAME);
      && Observe(st, e, p) == Opened([])
      && var st1 := After(st, e);
         PathOf(st1, 2) == Some(p) && p in st1.writers && st1.writers[p] == InnerWriter([], [], 0)
  {
    var st := After(Empty(norm, map[]), Ask(1, 0, Init(7, 38), Willing()));
    var e, p := Ask(2, 1, Create(O_WRONLY, NAME), Willing()), Join(ROOT, NAME);
    assert |st.slab| == 2 && PathOf(st, 1) == Some(ROOT);
    var (st1, ans) := CreateOp(st, Willing(), p, O_WRONLY);
    assert (After(st, e), AnswerTo(st, e)) == (st1, ans);
    assert ans.Reply? && st1.writers == map[p := InnerWriter([], [], 0)];
  }

  lemma ReleaseSeen(st: State, e: Event, p: Path)
    requires e.msg.op.Release? && e.env.closeOk && PathOf(st, e.msg.nodeid) == Some(p) && p in st.writers
    ensures Observe(st, e, p) == Closed && After(st, e).slab == st.slab
  {
  }

  /** One exchange at the front of a run. */
  lemma First(st: State, x: Exchange, xs: seq<Exchange>, p: Path)
    ensures var st1, act := After(st, EventOf(x)), Observe(st, EventOf(x), p);
      && ServeAll(st, [x] + xs) == ServeAll(st1, xs)
      && AllSent(st, [x] + xs, p) == (if act.Wrote? then Sent(x) else []) + AllSent(st1, xs, p)
      && (SessionStaysOpen(st, Events([x] + xs), p) <==>
            !act.Opened? && !act.Closed? && SessionStaysOpen(st1, Events(xs), p))
  {
    hide Observe, Step, Parse, Sent, Emit;
    assert ([x] + xs)[1..] == xs;
    assert Events([x] + xs)[1..] == Events(xs);
  }

  lemma NoneLeft(st: State, p: Path)
    ensures ServeAll(st, []) == st && AllSent(st, [], p) == []
    ensures SessionStaysOpen(st, Events([]), p) && ObjectLeftAlone(st, Events([]), p)
  {
  }

  lemma WritesSeen(st: State, w1: Exchange, w2: Exchange, w3: Exchange, p: Path)
    requires PathOf(st, 2) == Some(p) && p in st.writers && st.writers[p] == InnerWriter([], [], 0)
    requires EventOf(w1) == Ask(3, 2, Write(0, 2, [10, 11]), Willing()) && Sent(w1) == [10, 11]
    requires EventOf(w2) == Ask(4, 2, Write(0, 1, [99]), Willing())
    requires EventOf(w3) == Ask(5, 2, Write(2, 1, [12]), Willing()) && Sent(w3) == [12]
    ensures var xs := [w1] + ([w2] + ([w3] + []));
            var end := ServeAll(st, xs);
      && SessionStaysOpen(st, Events(xs), p) && AllSent(st, xs, p) == [10, 11, 12]
      && PathOf(end, 2) == Some(p) && p in end.writers
  {
    hide Observe, After, ServeAll, AllSent, SessionStaysOpen, Events, Sent, EventOf;
    WriteSeen(st, EventOf(w1), p);
    var st1 := After(st, EventOf(w1));
    WriteSeen(st1, EventOf(w2), p);
    WriteSeen(st1, EventOf(w3), p);
    First(st, w1, [w2] + ([w3] + []), p);
    First(st1, w2, [w3] + [], p);
    First(st1, w3, [], p);
    NoneLeft(After(st1, EventOf(w3)), p);
    assert [10, 11] + ([] + ([12] + [])) == [10, 11, 12];
  }

  /** init, open, three writes, release; then the guest finds in the reply to its read a
      header and the two bytes from offset 1 on. */
  ghost predicate ReadsBack(norm: Path -> Path, i: Exchange, c: Exchange, writes: seq<Exchange>, r: Exchange,
                            read: Exchange) {
    var st0 := ServeAll(Empty(norm, map[]), [i]);
    var st2 := ServeAll(After(st0, EventOf(c)), writes);
    var (_, mem', out) := Serve(After(st2, EventOf(r)), read.env, read.mem, read.readable, read.writable);
    var v := View(mem', Cells(read.writable));
    && out == Ok(18) && |v| == 4096
    && v[..18] == OutHeader(18, 0, 7) + [11, 12]
  }

  /** The session on any exchanges that are understood as its messages: every hypothesis
      of the round trip is met. */
  lemma SessionDelivered(norm: Path -> Path, i: Exchange, c: Exchange, w1: Exchange, w2: Exchange, w3: Exchange,
                         r: Exchange, read: Exchange)
    requires EventOf(i) == Ask(1, 0, Init(7, 38), Willing())
    requires EventOf(c) == Ask(2, 1, Create(O_WRONLY, NAME), Willing())
    requires EventOf(w1) == Ask(3, 2, Write(0, 2, [10, 11]), Willing()) && Sent(w1) == [10, 11]
    requires EventOf(w2) == Ask(4, 2, Write(0, 1, [99]), Willing())
    requires EventOf(w3) == Ask(5, 2, Write(2, 1, [12]), Willing()) && Sent(w3) == [12]
    requires PayloadBounded(Request(w1)) && PayloadBounded(Request(w2)) && PayloadBounded(Request(w3))
    requires EventOf(r) == Ask(6, 2, Release, Willing())
    requires EventOf(read) == Ask(7, 2, Read(1), Willing()) && read.env == Willing()
    requires NoDup(Cells(read.writable)) && Within(Cells(read.writable), |read.mem|) && NoEmpty(read.writable)
    requires |Cells(read.writable)| == 4096
    ensures ReadsBack(norm, i, c, [w1] + ([w2] + ([w3] + [])), r, read)
  {
    hide Observe, After, ServeAll, AllSent, SessionStaysOpen, ObjectLeftAlone, Events, Sent, EventOf, Serve, View;
    hide OutHeader, PayloadBounded, Request, NoDup, Within, NoEmpty, Cells, Join, Empty;
    var p, xs := Join(ROOT, NAME), [w1] + ([w2] + ([w3] + []));
    var start := Empty(norm, map[]);
    First(start, i, [], p);
    assert [i] + [] == [i];
    NoneLeft(After(start, EventOf(i)), p);
    var st0 := ServeAll(start, [i]);
    CreateSeen(norm);
    var st1 := After(st0, EventOf(c));
    WritesSeen(st1, w1, w2, w3, p);
    var st2 := ServeAll(st1, xs);
    ReleaseSeen(st2, EventOf(r), p);
    var st3 := After(st2, EventOf(r));
    NoneLeft(st3, norm(p));
    assert PathOf(st3, 2) == Some(p);
    var whole: Bytes := [10, 11, 12];
    assert [] + whole == whole && whole[1..] == [11, 12];
    RoundTrip(norm, map[], [i], p, c, xs, r, [], read);
  }

  /** Every hypothesis of the round trip can be met with requests as a guest lays them
      out: init, create, a write, one at a wrong offset, another write, release, and a
      read that asks for one byte and is answered with the remaining two, wherever the
      requests are cut. */
  lemma RoundTripExample(norm: Path -> Path, cut: nat)
    ensures ReadsBack(norm, Talk(InitAsk(), cut, Willing()), Talk(CreateAsk(), cut, Willing()),
                      WriteTalks(cut), Talk(ReleaseAsk(), cut, Willing()), Talk(ReadAsk(), cut, Willing()))
  {
    hide EventOf, Talk, InitAsk, CreateAsk, WriteAsk, ReleaseAsk, ReadAsk, Ask, Willing, Sent, Request;
    hide PayloadBounded, NoDup, Within, NoEmpty, Cells, ReadsBack;
    InitEvent(cut);
    CreateEvent(cut);
    WriteEvent(3, 0, [10, 11], cut);
    WriteEvent(4, 0, [99], cut);
    WriteEvent(5, 2, [12], cut);
    ReleaseEvent(cut);
    ReadEvent(cut);
    TalkChains(ReadAsk(), cut, Willing());
    var env := Willing();
    var d, e, f: Bytes := [10, 11], [99], [12];
    var w1, w2, w3 := Talk(WriteAsk(3, 0, d), cut, env), Talk(WriteAsk(4, 0, e), cut, env),
                      Talk(WriteAsk(5, 2, f), cut, env);
    SessionDelivered(norm, Talk(InitAsk(), cut, env), Talk(CreateAsk(), cut, env), w1, w2, w3,
                     Talk(ReleaseAsk(), cut, env), Talk(ReadAsk(), cut, env));
  }
}
