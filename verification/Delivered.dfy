/** What the guest reads in its reply chain, operation by operation, for every
    segmentation of the request and of the reply. */
module Delivered {
  import opened GuestMemory
  import opened Chain
  import opened Cursor
  import opened Messages
  import opened Requests
  import opened FsModel
  import opened Inodes
  import opened Sessions
  import opened Replies
  import opened Handlers
  import opened EndToEnd
  import opened Outcomes

  /** The reply chain as the guest reads it after the exchange. */
  ghost function ReplyTo(st: State, x: Exchange): (v: Bytes)
    ensures |v| == |Cells(x.writable)|
  {
    View(Serve(st, x.env, x.mem, x.readable, x.writable).1, Cells(x.writable))
  }

  /** The reply chain repeats no cell, lies in guest memory and has this much room. */
  ghost predicate Roomy(x: Exchange, room: nat) {
    NoDup(Cells(x.writable)) && Within(Cells(x.writable), |x.mem|) && room <= |Cells(x.writable)|
  }

  // ---- any reply ----------------------------------------------------------

  /** A structure reply: a header without error, its length, and the structure. */
  lemma BodyDelivered(st: State, x: Exchange, body: Body)
    requires AnswerTo(st, EventOf(x)) == Reply(body) && Roomy(x, OUT_HEADER_SIZE + |BodyBytes(body)|)
    ensures var v, n := ReplyTo(st, x), |BodyBytes(body)|;
      && HeaderError(v) == 0 && HeaderLen(v) == OUT_HEADER_SIZE + n
      && HeaderUnique(v) == EventOf(x).msg.unique % U64
      && v[OUT_HEADER_SIZE..] == BodyBytes(body) + v[OUT_HEADER_SIZE + n..]
  {
    hide Parse, Step, Emit, Laid, Cells, NoDup, Within, HeaderLen, HeaderError, HeaderUnique, BodyBytes;
    var msg, ws, ans := Parse(x.mem, x.readable), x.writable, Reply(body);
    Concludes(st, msg, x.env, x.mem, ws, After(st, EventOf(x)), ans);
    EmitDelivers(x.mem, ws, msg.unique, ans);
    LaidReply(ws, body);
    Framing(x.mem, ws, msg.unique, ans);
    LengthOf(x.mem, ws, msg.unique, body);
    ErrorField(0);
    var v := ReplyTo(st, x);
    assert v[OUT_HEADER_SIZE..][|BodyBytes(body)|..] == v[OUT_HEADER_SIZE + |BodyBytes(body)|..];
  }

  lemma LengthOf(mem: Bytes, ws: seq<Slice>, unique: nat, body: Body)
    requires OUT_HEADER_SIZE + |BodyBytes(body)| <= |Cells(ws)|
    ensures Emit(mem, ws, unique, Reply(body)).1 == Ok(OUT_HEADER_SIZE + |BodyBytes(body)|)
  {
    hide BodyBytes, OutHeader, WriteSome, Cells;
  }

  /** An error reply: its negated errno, and no more than the header. */
  lemma ErrorDelivered(st: State, x: Exchange)
    requires AnswerTo(st, EventOf(x)).Errno? && Roomy(x, OUT_HEADER_SIZE)
    ensures var v := ReplyTo(st, x);
      && HeaderError(v) == U32 - AnswerTo(st, EventOf(x)).code && HeaderError(v) > 0
      && HeaderLen(v) == OUT_HEADER_SIZE
      && HeaderUnique(v) == EventOf(x).msg.unique % U64
  {
    hide Parse, Step, Emit, Cells, NoDup, Within, HeaderLen, HeaderError, HeaderUnique, Split;
    var msg, ws, ans := Parse(x.mem, x.readable), x.writable, AnswerTo(st, EventOf(x));
    ErrnoCodes(st, EventOf(x));
    Concludes(st, msg, x.env, x.mem, ws, After(st, EventOf(x)), ans);
    EmitDelivers(x.mem, ws, msg.unique, ans);
    ErrorLength(x.mem, ws, msg.unique, ans.code);
    ErrorField(ans.code);
    Framing(x.mem, ws, msg.unique, ans);
  }

  lemma ErrorLength(mem: Bytes, ws: seq<Slice>, unique: nat, code: nat)
    requires OUT_HEADER_SIZE <= |Cells(ws)|
    ensures Emit(mem, ws, unique, Errno(code)).1 == Ok(OUT_HEADER_SIZE)
  {
    hide OutHeader, WriteSome, Cells;
  }

  /** A field of a structure reply, where the guest reads it. */
  lemma FieldBehind(v: Bytes, body: Bytes, rest: Bytes, at: nat, k: nat)
    requires |v| >= OUT_HEADER_SIZE && v[OUT_HEADER_SIZE..] == body + rest && at + k <= |body + rest|
    ensures Field(v, OUT_HEADER_SIZE + at, k) == Field(body + rest, at, k)
  {
    SubField(v, OUT_HEADER_SIZE, at, k);
  }

  lemma AttrBehind(v: Bytes, body: Bytes, rest: Bytes, at: nat)
    requires |v| >= OUT_HEADER_SIZE && v[OUT_HEADER_SIZE..] == body + rest && at + 88 <= |body + rest|
    ensures ReadAttr(v, OUT_HEADER_SIZE + at) == ReadAttr(body + rest, at)
  {
    hide Field;
    FieldBehind(v, body, rest, at, 8);
    FieldBehind(v, body, rest, at + 8, 8);
    FieldBehind(v, body, rest, at + 60, 4);
    FieldBehind(v, body, rest, at + 64, 4);
    FieldBehind(v, body, rest, at + 68, 4);
    FieldBehind(v, body, rest, at + 72, 4);
  }

  // ---- write --------------------------------------------------------------

  lemma WriteReplies(st: State, e: Event)
    requires e.msg.op.Write? && AnswerTo(st, e).Reply?
    ensures AnswerTo(st, e) == Reply(WriteBody(e.msg.op.size))
  {
    hide WritePath;
  }

  /** An accepted write is answered with the size it announced, first in the structure. */
  lemma WriteAnswered(st: State, x: Exchange)
    requires EventOf(x).msg.op.Write? && AnswerTo(st, EventOf(x)).Reply? && Roomy(x, 24)
    ensures var v := ReplyTo(st, x);
      && HeaderError(v) == 0 && HeaderLen(v) == 24 && HeaderUnique(v) == EventOf(x).msg.unique % U64
      && Field(v, 16, 4) == EventOf(x).msg.op.size % U32
  {
    hide Parse, Step, NoDup, Within, Cells, ReplyTo, WriteOut, BodyBytes;
    hide Field, HeaderLen, HeaderError, HeaderUnique;
    var size, v := EventOf(x).msg.op.size, ReplyTo(st, x);
    WriteReplies(st, EventOf(x));
    WriteBytes(size);
    BodyDelivered(st, x, WriteBody(size));
    WriteOutFields(size, v[24..]);
    FieldBehind(v, WriteOut(size), v[24..], 0, 4);
  }

  lemma WriteBytes(size: nat)
    ensures BodyBytes(WriteBody(size)) == WriteOut(size) && |WriteOut(size)| == 8
  {
    hide LE;
  }

  /** A write to p as the guest sees it: its own size back exactly when a session on p is
      open, the offset is the end of its content and the backend takes the data; else EIO. */
  lemma WriteOutcome(st: State, x: Exchange, p: Path, cur: Option<Session>)
    requires Holds(st, p, cur) && Roomy(x, 24)
    requires EventOf(x).msg.op.Write? && PathOf(st, EventOf(x).msg.nodeid) == Some(p)
    ensures var v, op := ReplyTo(st, x), EventOf(x).msg.op;
            var taken := cur.Some? && x.env.writeOk && op.offset == |PwriteAll(cur.value.base, cur.value.writes)|;
      && HeaderUnique(v) == EventOf(x).msg.unique % U64
      && (taken ==> HeaderError(v) == 0 && Field(v, 16, 4) == op.size % U32)
      && (!taken ==> HeaderError(v) == U32 - 5)
  {
    hide Parse, Step, NoDup, Within, Cells, ReplyTo, Holds, PwriteAll;
    hide Field, HeaderLen, HeaderError, HeaderUnique;
    WriteAccepted(st, EventOf(x), p, cur);
    if AnswerTo(st, EventOf(x)).Reply? {
      WriteAnswered(st, x);
    } else {
      ErrorDelivered(st, x);
    }
  }

  /** The same for a write request as the guest lays it out, cut at will. */
  lemma WriteConfirmed(st: State, x: Exchange, p: Path, cur: Option<Session>, len: nat, unique: nat, nodeid: nat,
                       caller: Bytes, fh: Bytes, offset: nat, more: Bytes, data: Bytes)
    requires Holds(st, p, cur) && PathOf(st, nodeid) == Some(p) && Roomy(x, 24)
    requires len <= MAX_BUFFER_SIZE + BUFFER_HEADER_SIZE && unique < U64 && nodeid < U64
    requires |caller| == 16 && |fh| == 8 && |more| == 20 && offset < U64 && |data| < U32
    requires Request(x) == RequestBytes(len, 16, unique, nodeid, caller, IoIn(fh, offset, |data|, more) + data)
    ensures var v := ReplyTo(st, x);
            var taken := cur.Some? && x.env.writeOk && offset == |PwriteAll(cur.value.base, cur.value.writes)|;
      && HeaderUnique(v) == unique
      && (taken ==> HeaderError(v) == 0 && Field(v, 16, 4) == |data|)
      && (!taken ==> HeaderError(v) == U32 - 5)
  {
    hide Parse, Step, NoDup, Within, Cells, ReplyTo, Holds, PwriteAll, RequestBytes, IoIn, PathOf;
    hide Field, HeaderLen, HeaderError, HeaderUnique;
    ParseWriteRequest(x.mem, x.readable, len, unique, nodeid, caller, fh, offset, more, data);
    assert EventOf(x).msg == Msg(unique, nodeid, Write(offset, |data|, data));
    WriteOutcome(st, x, p, cur);
  }

  // ---- lookup, getattr, setattr -------------------------------------------

  /** What a guest reads: inode and size in 64 bits, a directory or regular file with
      permissions rwxr-xr-x, two links or one, and user and group 1000. */
  function Shown(a: Attr): GuestAttr {
    GuestAttr(a.ino % U64, a.size % U64, if a.isDir then 0x41ED else 0x81ED,
              if a.isDir then 2 else 1, 1000, 1000)
  }

  /** Where the attributes lie in the reply chain. */
  function AttrAt(op: Op): nat { if op.Getattr? || op.Setattr? then 32 else 56 }

  /** The attributes of every reply that has some, as the guest reads them. */
  lemma AttrDelivered(st: State, x: Exchange, body: Body)
    requires AnswerTo(st, EventOf(x)) == Reply(body) && Roomy(x, OUT_HEADER_SIZE + |BodyBytes(body)|)
    requires body.EntryBody? || body.AttrBody? || body.CreateBody?
    ensures var v, at := ReplyTo(st, x), if body.AttrBody? then 32 else 56;
      at + 88 <= |v| && HeaderError(v) == 0 && ReadAttr(v, at) == Shown(body.attr)
  {
    hide Parse, Step, Cells, NoDup, Within, ReplyTo, HeaderLen, HeaderError, HeaderUnique, ReadAttr;
    hide EntryOut, AttrOut, OpenOut;
    var v, b := ReplyTo(st, x), BodyBytes(body);
    var rest, a := v[OUT_HEADER_SIZE + |b|..], body.attr;
    BodyDelivered(st, x, body);
    var extra := OrEmpty(BodyParts(body).1);
    var head := if body.AttrBody? then AttrOut(a) else EntryOut(a);
    assert b == head + extra;
    assert b + rest == head + (extra + rest);
    BodyAttr(a, extra + rest);
    AttrBehind(v, b, rest, if body.AttrBody? then 16 else 40);
  }

  /** lookup, getattr and setattr at the guest: the size, type and inode of the object
      the path names, exactly when the backend knows it; else ENOENT. */
  lemma MetadataDelivered(st: State, x: Exchange, dir: Path)
    requires var op := EventOf(x).msg.op; op.Lookup? || op.Getattr? || op.Setattr?
    requires PathOf(st, EventOf(x).msg.nodeid) == Some(dir) && Roomy(x, 144)
    ensures var op, v := EventOf(x).msg.op, ReplyTo(st, x);
            var p, st' := Target(dir, op), After(st, EventOf(x));
      && (HeaderError(v) == 0 <==> Exists(st, x.env, p))
      && (!Exists(st, x.env, p) ==> HeaderError(v) == U32 - 2 && st' == st)
      && (Exists(st, x.env, p) ==>
            && p in st'.inodes
            && ReadAttr(v, AttrAt(op)) ==
                 Shown(Attr(st'.inodes[p],
                            if x.env.isDir then x.env.dirSize else |st.objects[st.norm(p)]|, x.env.isDir)))
  {
    hide Parse, Step, Cells, NoDup, Within, ReplyTo, HeaderLen, HeaderError, HeaderUnique, ReadAttr, Join;
    hide BodyBytes, Shown;
    var e := EventOf(x);
    MetadataExactly(st, e, dir);
    if AnswerTo(st, e).Reply? {
      var body := AnswerTo(st, e).body;
      BodySizes(body);
      AttrDelivered(st, x, body);
    } else {
      ErrorDelivered(st, x);
    }
  }

  lemma BodySizes(body: Body)
    ensures body.EntryBody? ==> |BodyBytes(body)| == 128
    ensures body.AttrBody? ==> |BodyBytes(body)| == 104
    ensures body.CreateBody? ==> |BodyBytes(body)| == 144
    ensures body.InitBody? ==> |BodyBytes(body)| == 64
    ensures body.NoBody? ==> |BodyBytes(body)| == 0
    ensures body.OpenBody? ==> |BodyBytes(body)| == 16
  {
    hide EntryOut, AttrOut, InitOut;
  }

  /** After a session on p was opened, written to at will and released, and any exchanges
      that leave p's object alone: a guest that asks for the attributes of p as a file
      reads the length of exactly what it sent, behind what the object held before --
      for every segmentation of every request and of the reply. */
  lemma SizeDelivered(st: State, open: Exchange, xs: seq<Exchange>, release: Exchange, ys: seq<Exchange>,
                      x: Exchange, p: Path, dir: Path, cur: Option<Session>)
    requires Holds(st, p, cur) && Observe(st, EventOf(open), p).Opened?
    requires forall i :: 0 <= i < |xs| ==> PayloadBounded(Request(xs[i]))
    requires var st1 := After(st, EventOf(open));
             var st2 := ServeAll(st1, xs);
             var st3 := After(st2, EventOf(release));
             var st4 := ServeAll(st3, ys);
      && SessionStaysOpen(st1, Events(xs), p) && Observe(st2, EventOf(release), p).Closed?
      && ObjectLeftAlone(st3, Events(ys), st3.norm(p))
      && PathOf(st4, EventOf(x).msg.nodeid) == Some(dir)
    requires var op := EventOf(x).msg.op; (op.Lookup? || op.Getattr? || op.Setattr?) && Target(dir, op) == p
    requires x.env.statOk && !x.env.isDir && Roomy(x, 144)
    ensures var st1 := After(st, EventOf(open));
            var st4 := ServeAll(After(ServeAll(st1, xs), EventOf(release)), ys);
            var v, at := ReplyTo(st4, x), AttrAt(EventOf(x).msg.op);
            var content := Observe(st, EventOf(open), p).base + AllSent(st1, xs, p);
      && HeaderError(v) == 0 && ReadAttr(v, at).size == |content| % U64
      && ReadAttr(v, at).mode == 0x81ED
  {
    hide Holds, Observe, PayloadBounded, Request, SessionStaysOpen, ObjectLeftAlone, EventOf, Events, After, ServeAll;
    hide Run, AllSent, Accepted, Concat, PwriteAll, ReplyTo, HeaderError, ReadAttr, NoDup, Within, Cells, Target;
    var e := EventOf(open);
    var st1 := After(st, e);
    ServeAllRuns(st1, xs);
    var st3 := After(ServeAll(st1, xs), EventOf(release));
    ServeAllRuns(st3, ys);
    AcceptedIsSent(st1, xs, p);
    CommittedContent(st, e, Events(xs), EventOf(release), Events(ys), p, cur);
    EnvOf(x);
    MetadataDelivered(ServeAll(st3, ys), x, dir);
  }

  lemma EnvOf(x: Exchange)
    ensures EventOf(x).env == x.env && EventOf(x).room == |Cells(x.writable)|
  {
  }

  // ---- create, mkdir ------------------------------------------------------

  /** A created file and a created directory: a new nodeid, size 0, and the right type. */
  lemma CreatedDelivered(st: State, x: Exchange, dir: Path)
    requires EventOf(x).msg.op.Create? || EventOf(x).msg.op.Mkdir?
    requires PathOf(st, EventOf(x).msg.nodeid) == Some(dir) && Roomy(x, 160)
    ensures var op, v := EventOf(x).msg.op, ReplyTo(st, x);
            var p := Join(dir, op.name);
            var ok := if op.Create? then MayOpen(st, x.env, p, op.flags) else x.env.mkdirOk;
      && (HeaderError(v) == 0 <==> ok)
      && (!ok ==> HeaderError(v) == U32 - 2)
      && (ok ==> ReadAttr(v, 56) == Shown(Attr(|st.slab|, 0, op.Mkdir?)) && Field(v, 16, 8) == |st.slab| % U64)
      && PathOf(After(st, EventOf(x)), |st.slab|) == Some(p)
  {
    hide Parse, Step, Cells, NoDup, Within, ReplyTo, HeaderLen, HeaderError, HeaderUnique, ReadAttr, Join;
    hide BodyBytes, Shown, MayOpen, WithWriter, Field;
    var e := EventOf(x);
    if e.msg.op.Create? {
      CreateExactly(st, e, dir);
    } else {
      MkdirExactly(st, e, dir);
    }
    if AnswerTo(st, e).Reply? {
      var body := AnswerTo(st, e).body;
      BodySizes(body);
      AttrDelivered(st, x, body);
      EntryDelivered(st, x, body);
    } else {
      ErrorDelivered(st, x);
    }
  }

  /** The nodeid and the validity of every entry reply. */
  lemma EntryDelivered(st: State, x: Exchange, body: Body)
    requires AnswerTo(st, EventOf(x)) == Reply(body) && (body.EntryBody? || body.CreateBody?)
    requires Roomy(x, OUT_HEADER_SIZE + |BodyBytes(body)|)
    ensures var v := ReplyTo(st, x);
      && |v| >= 144 && Field(v, 16, 8) == body.attr.ino % U64
      && Field(v, 24, 8) == 0 && Field(v, 32, 8) == 1 && Field(v, 40, 8) == 1 && Field(v, 48, 8) == 0
      && (body.CreateBody? ==> |v| >= 160 && Field(v, 144, 8) == 0)
  {
    hide Parse, Step, Cells, NoDup, Within, ReplyTo, HeaderLen, HeaderError, HeaderUnique, Field;
    hide EntryOut, OpenOut;
    var v, b, a := ReplyTo(st, x), BodyBytes(body), body.attr;
    var rest := v[OUT_HEADER_SIZE + |b|..];
    BodyDelivered(st, x, body);
    var tail := OrEmpty(BodyParts(body).1) + rest;
    assert b + rest == EntryOut(a) + tail;
    EntryNodeid(a, tail);
    EntryOutFields(a, tail);
    FieldBehind(v, EntryOut(a), tail, 0, 8);
    FieldBehind(v, EntryOut(a), tail, 8, 8);
    FieldBehind(v, EntryOut(a), tail, 16, 8);
    FieldBehind(v, EntryOut(a), tail, 24, 8);
    FieldBehind(v, EntryOut(a), tail, 32, 8);
    if body.CreateBody? {
      assert tail == OpenOut() + rest;
      HandleBehind(a, rest);
      FieldBehind(v, EntryOut(a), tail, 128, 8);
    }
  }

  lemma HandleBehind(a: Attr, rest: Bytes)
    ensures |EntryOut(a) + (OpenOut() + rest)| >= 144 && Field(EntryOut(a) + (OpenOut() + rest), 128, 8) == 0
  {
    hide EntryOut, UnLE, Zeros;
    assert EntryOut(a) + (OpenOut() + rest) == EntryOut(a) + Zeros(16) + rest;
    FieldOfZeros(EntryOut(a), 16, rest, 128, 8);
  }

  // ---- init, open, unlink, rmdir, release ---------------------------------

  /** What the guest learns from init: FUSE 7.38 and writes of up to one mebibyte, in the
      version window of the device; outside of it EIO. */
  lemma InitDelivered(st: State, x: Exchange)
    requires EventOf(x).msg.op.Init? && Roomy(x, 80)
    ensures var v, op := ReplyTo(st, x), EventOf(x).msg.op;
            var accepted := op.major == 7 && op.minor >= 27;
      && (HeaderError(v) == 0 <==> accepted)
      && (!accepted ==> HeaderError(v) == U32 - 5)
      && (accepted ==> Field(v, 16, 4) == 7 && Field(v, 20, 4) == 38 && Field(v, 36, 4) == 0x10_0000)
  {
    hide Parse, Step, Cells, NoDup, Within, ReplyTo, HeaderLen, HeaderError, HeaderUnique, Field, InitOut;
    InitExactly(st, EventOf(x));
    if AnswerTo(st, EventOf(x)).Reply? {
      var v := ReplyTo(st, x);
      BodyDelivered(st, x, InitBody);
      assert BodyBytes(InitBody) == InitOut() + [] == InitOut();
      InitOutFields(v[80..]);
      FieldBehind(v, InitOut(), v[80..], 0, 4);
      FieldBehind(v, InitOut(), v[80..], 4, 4);
      FieldBehind(v, InitOut(), v[80..], 20, 4);
    } else {
      ErrorDelivered(st, x);
    }
  }

  /** open at the guest: error 0 exactly when the flags, the capabilities and the object
      allow it, and then file handle 0; else ENOENT. */
  lemma OpenDelivered(st: State, x: Exchange, p: Path)
    requires EventOf(x).msg.op.Open? && PathOf(st, EventOf(x).msg.nodeid) == Some(p) && Roomy(x, 32)
    ensures var v, may := ReplyTo(st, x), MayOpen(st, x.env, p, EventOf(x).msg.op.flags);
      && (may ==> HeaderError(v) == 0 && Field(v, 16, 8) == 0)
      && (!may ==> HeaderError(v) == U32 - 2 && After(st, EventOf(x)) == st)
  {
    hide Parse, Step, Cells, NoDup, Within, ReplyTo, HeaderLen, HeaderError, HeaderUnique, Field, OpenOut;
    hide MayOpen, WithWriter;
    OpenExactly(st, EventOf(x), p);
    if AnswerTo(st, EventOf(x)).Reply? {
      var v := ReplyTo(st, x);
      BodySizes(OpenBody);
      BodyDelivered(st, x, OpenBody);
      assert BodyBytes(OpenBody) == OpenOut() + [] == OpenOut();
      OpenOutFields(v[32..]);
      FieldBehind(v, OpenOut(), v[32..], 0, 8);
    } else {
      ErrorDelivered(st, x);
    }
  }

  /** unlink and rmdir at the guest: error 0 exactly when the object is deleted. */
  lemma RemoveDelivered(st: State, x: Exchange, dir: Path)
    requires (EventOf(x).msg.op.Unlink? || EventOf(x).msg.op.Rmdir?)
    requires PathOf(st, EventOf(x).msg.nodeid) == Some(dir) && Roomy(x, OUT_HEADER_SIZE)
    ensures var v, k := ReplyTo(st, x), st.norm(Join(dir, EventOf(x).msg.op.name));
      && (HeaderError(v) == 0 ==> After(st, EventOf(x)).objects == st.objects - {k})
      && (HeaderError(v) != 0 ==> HeaderError(v) == U32 - 2 && After(st, EventOf(x)) == st)
      && (HeaderError(v) == 0 <==> x.env.deleteOk)
  {
    hide Parse, Step, Cells, NoDup, Within, ReplyTo, HeaderLen, HeaderError, HeaderUnique, Join;
    RemoveExactly(st, EventOf(x), dir);
    if AnswerTo(st, EventOf(x)).Reply? {
      BodySizes(NoBody);
      BodyDelivered(st, x, NoBody);
    } else {
      ErrorDelivered(st, x);
    }
  }

  /** flush, releasedir, fsyncdir and opendir at the guest. */
  lemma AcknowledgeDelivered(st: State, x: Exchange)
    requires var op := EventOf(x).msg.op; op.Flush? || op.Releasedir? || op.Fsyncdir? || op.Opendir?
    requires Roomy(x, 32)
    ensures HeaderError(ReplyTo(st, x)) == if EventOf(x).msg.nodeid < |st.slab| then 0 else U32 - 2
  {
    hide Parse, Step, Cells, NoDup, Within, ReplyTo, HeaderLen, HeaderError, HeaderUnique;
    AcknowledgeExactly(st, EventOf(x));
    RefusedExactly(st, EventOf(x));
    BodySizes(NoBody);
    BodySizes(OpenBody);
    if AnswerTo(st, EventOf(x)).Reply? {
      BodyDelivered(st, x, AnswerTo(st, EventOf(x)).body);
    } else {
      ErrorDelivered(st, x);
    }
  }

  /** release at the guest: error 0 exactly when a session is open and the backend closes
      it; then it is committed. */
  lemma ReleaseDelivered(st: State, x: Exchange, p: Path, cur: Option<Session>)
    requires Holds(st, p, cur) && Roomy(x, OUT_HEADER_SIZE)
    requires EventOf(x).msg.op.Release? && PathOf(st, EventOf(x).msg.nodeid) == Some(p)
    ensures var v, closed := ReplyTo(st, x), cur.Some? && x.env.closeOk;
      && HeaderError(v) == (if closed then 0 else U32 - 5)
      && (closed ==> After(st, EventOf(x)).objects ==
                       st.objects[st.norm(p) := PwriteAll(cur.value.base, cur.value.writes)])
  {
    hide Parse, Step, Cells, NoDup, Within, ReplyTo, HeaderLen, HeaderError, HeaderUnique, Holds, PwriteAll;
    ReleaseCommits(st, EventOf(x), p, cur);
    if AnswerTo(st, EventOf(x)) == Reply(NoBody) {
      BodySizes(NoBody);
      BodyDelivered(st, x, NoBody);
    } else {
      ErrorDelivered(st, x);
    }
  }

  /** Requests that reach no operation: ENOENT for a nodeid never handed out, ENOSYS for
      an opcode the device does not know, EIO for a bad name or an overlong request. */
  lemma RefusedDelivered(st: State, x: Exchange)
    requires Roomy(x, OUT_HEADER_SIZE)
    ensures var v, msg := ReplyTo(st, x), EventOf(x).msg;
      && (NeedsNode(msg.op) && msg.nodeid >= |st.slab| ==> HeaderError(v) == U32 - 2)
      && (msg.op.Unsupported? ==> HeaderError(v) == U32 - 38)
      && (msg.op.BadName? || msg.op.TooLong? ==> HeaderError(v) == U32 - 5)
  {
    hide Parse, Step, Cells, NoDup, Within, ReplyTo, HeaderLen, HeaderError, HeaderUnique;
    var e := EventOf(x);
    RefusedExactly(st, e);
    if (NeedsNode(e.msg.op) && e.msg.nodeid >= |st.slab|)
       || e.msg.op.Unsupported? || e.msg.op.BadName? || e.msg.op.TooLong? {
      ErrorDelivered(st, x);
    }
  }

  // ---- readdir ------------------------------------------------------------

  /** A listing that does not fit its chain is answered EIO, with no more than the header
      announced; one that fits, or of which nothing is due, without error. */
  lemma ListingVerdict(st: State, x: Exchange, at: nat, ds: seq<DirEntry>)
    requires AnswerTo(st, EventOf(x)) == Listing(at, ds) && Roomy(x, OUT_HEADER_SIZE)
    ensures var v := ReplyTo(st, x);
            var fits := at >= |ds| || OUT_HEADER_SIZE + SumRecords(ds) <= |Cells(x.writable)|;
      && HeaderError(v) == (if fits then 0 else U32 - 5)
      && (!fits || at >= |ds| ==> HeaderLen(v) == OUT_HEADER_SIZE)
  {
    hide Parse, Step, Emit, Cells, NoDup, Within, HeaderLen, HeaderError, SumRecords;
    var msg, ws, ans := Parse(x.mem, x.readable), x.writable, Listing(at, ds);
    Concludes(st, msg, x.env, x.mem, ws, After(st, EventOf(x)), ans);
    ListingFramed(x.mem, ws, msg.unique, at, ds);
  }

  lemma ListingFramed(mem: Bytes, ws: seq<Slice>, unique: nat, at: nat, ds: seq<DirEntry>)
    requires NoDup(Cells(ws)) && Within(Cells(ws), |mem|) && OUT_HEADER_SIZE <= |Cells(ws)|
    ensures var v := View(Emit(mem, ws, unique, Listing(at, ds)).0, Cells(ws));
            var fits := at >= |ds| || OUT_HEADER_SIZE + SumRecords(ds) <= |Cells(ws)|;
      && HeaderError(v) == (if fits then 0 else U32 - 5)
      && (!fits || at >= |ds| ==> HeaderLen(v) == OUT_HEADER_SIZE)
  {
    hide Emit, Laid, Cells, NoDup, Within, HeaderLen, HeaderError, HeaderUnique, SumRecords;
    var ans := Listing(at, ds);
    EmitDelivers(mem, ws, unique, ans);
    ListingHeader(ws, at, ds);
    EmittedLength(mem, ws, unique, ans);
    Framing(mem, ws, unique, ans);
    ErrorField(Laid(ws, ans).1);
    ShortLength();
  }

  lemma ErrorField(errno: nat)
    requires errno < U32
    ensures (U32 - errno) % U32 == if errno == 0 then 0 else U32 - errno
  {
  }

  lemma ShortLength()
    ensures OUT_HEADER_SIZE % U32 == OUT_HEADER_SIZE
  {
  }

  lemma EmittedLength(mem: Bytes, ws: seq<Slice>, unique: nat, ans: Answer)
    requires NoDup(Cells(ws)) && !ans.Silent? && Emit(mem, ws, unique, ans).1.Ok?
    ensures Emit(mem, ws, unique, ans).1.len == Laid(ws, ans).0 % U32
  {
    hide Emit, Laid, Put, OutHeader, Cells, NoDup;
    EmitSequential(mem, ws, unique, ans);
  }

  lemma ListingHeader(ws: seq<Slice>, at: nat, ds: seq<DirEntry>)
    requires OUT_HEADER_SIZE <= |Cells(ws)|
    ensures var fits := at >= |ds| || OUT_HEADER_SIZE + SumRecords(ds) <= |Cells(ws)|;
      && Laid(ws, Listing(at, ds)).1 == (if fits then 0 else 5)
      && (!fits || at >= |ds| ==> Laid(ws, Listing(at, ds)).0 == OUT_HEADER_SIZE)
  {
    hide Cells, Split, Dirents, SumRecords, BodyBytes;
    SplitCells(ws, OUT_HEADER_SIZE);
    DirentsLength(ds);
  }

  // ---- readdir against getattr --------------------------------------------

  /** The type in a directory record is the type in the mode of the child's attributes:
      the file-type bits, four places from the top of sixteen. */
  lemma ListedTypeAgrees(st: State, p: Path, child: Listed, i: nat, a: Attr, rest: Bytes)
    requires a.isDir == child.isDir
    ensures ListEntry(st, p, child, i).1.type_ == ReadAttr(AttrOut(a) + rest, 16).mode / 4096
    ensures ListEntry(st, p, child, i).1.type_ in {4, 8}
  {
    hide ReadAttr, AttrOut;
    BodyAttr(a, rest);
  }
}
