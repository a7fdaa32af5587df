/** A readable chain behaves like a cursor on one flat byte string, whatever sequence
    of exact reads and gathers is run on it. */
module Segmentation {
  import opened GuestMemory
  import opened Chain
  import opened Cursor
  import opened Requests

  /** Exact(n) is `read_obj` or `read_exact` of n bytes, Gather(count) is `read_to_at`. */
  datatype Call = Exact(n: nat) | Gather(count: nat)

  /** Results of the calls (None: the exact read failed, which consumes everything) and
      the flat bytes left, on slices. */
  function Perform(mem: Bytes, ss: seq<Slice>, calls: seq<Call>): (seq<Option<Bytes>>, Bytes)
    decreases |calls|
  {
    if calls == [] then ([], View(mem, Cells(ss)))
    else match calls[0]
      case Exact(n) =>
        if n <= |Cells(ss)| then
          var (rs, left) := Perform(mem, AfterExact(ss, n), calls[1..]);
          ([Some(View(mem, Cells(ss))[..n])] + rs, left)
        else
          var (rs, left) := Perform(mem, [], calls[1..]);
          ([None] + rs, left)
      case Gather(count) =>
        var got := View(mem, Cells(Pick(ss, count)));
        var (rs, left) := Perform(mem, AfterGather(ss, count), calls[1..]);
        ([Some(got)] + rs, left)
  }

  /** The same on a flat string; a gather takes all that is left. */
  function PerformFlat(bytes: Bytes, calls: seq<Call>): (seq<Option<Bytes>>, Bytes)
    decreases |calls|
  {
    if calls == [] then ([], bytes)
    else match calls[0]
      case Exact(n) =>
        if n <= |bytes| then
          var (rs, left) := PerformFlat(bytes[n..], calls[1..]);
          ([Some(bytes[..n])] + rs, left)
        else
          var (rs, left) := PerformFlat([], calls[1..]);
          ([None] + rs, left)
      case Gather(_) =>
        var (rs, left) := PerformFlat([], calls[1..]);
        ([Some(bytes)] + rs, left)
  }

  /** No gather asks for less than what is left when it runs. */
  predicate GathersCover(bytes: Bytes, calls: seq<Call>)
    decreases |calls|
  {
    calls == [] ||
    match calls[0]
    case Exact(n) => GathersCover(if n <= |bytes| then bytes[n..] else [], calls[1..])
    case Gather(count) => |bytes| <= count && GathersCover([], calls[1..])
  }

  lemma GatherLeavesNothing(mem: Bytes, ss: seq<Slice>, count: nat)
    requires |Cells(ss)| <= count
    ensures View(mem, Cells(Pick(ss, count))) == View(mem, Cells(ss))
    ensures View(mem, Cells(AfterGather(ss, count))) == []
  {
    GatherAll(mem, ss, count);
    PickShortest(ss, count);
    PickCells(ss, count);
    CellsAdvance(ss, |Cells(Pick(ss, count))|);
    if Pick(ss, count) == [] {
      assert |Cells(ss)| == 0;
    }
  }

  lemma {:induction false} ReadsAreFlat(mem: Bytes, ss: seq<Slice>, calls: seq<Call>)
    requires GathersCover(View(mem, Cells(ss)), calls)
    ensures Perform(mem, ss, calls) == PerformFlat(View(mem, Cells(ss)), calls)
    decreases |calls|
  {
    if calls != [] {
      match calls[0]
      case Exact(n) =>
        if n <= |Cells(ss)| {
          ViewAfter(mem, ss, n);
          ReadsAreFlat(mem, AfterExact(ss, n), calls[1..]);
        } else {
          assert View(mem, Cells([])) == [];
          ReadsAreFlat(mem, [], calls[1..]);
        }
      case Gather(count) =>
        GatherLeavesNothing(mem, ss, count);
        ReadsAreFlat(mem, AfterGather(ss, count), calls[1..]);
    }
  }

  /** Two chains with the same flat bytes give the same results and the same remaining
      bytes, for any calls. */
  lemma SameBytesSameReads(m1: Bytes, s1: seq<Slice>, m2: Bytes, s2: seq<Slice>, calls: seq<Call>)
    requires View(m1, Cells(s1)) == View(m2, Cells(s2))
    requires GathersCover(View(m1, Cells(s1)), calls)
    ensures Perform(m1, s1, calls) == Perform(m2, s2, calls)
  {
    ReadsAreFlat(m1, s1, calls);
    ReadsAreFlat(m2, s2, calls);
  }

  /** Any sequence of calls on a reader is that function of its memory and slices. */
  method Play(r: Reader, calls: seq<Call>) returns (results: seq<Option<Bytes>>)
    requires r.Valid()
    modifies r.buffer
    ensures r.Valid()
    ensures (results, r.Left()) == Perform(r.mem[..], old(r.buffer.buffers), calls)
  {
    ghost var mem, ss := r.mem[..], r.buffer.buffers;
    results := [];
    var i := 0;
    assert calls[0..] == calls && [] + Perform(mem, ss, calls).0 == Perform(mem, ss, calls).0;
    while i < |calls|
      invariant 0 <= i <= |calls| && r.Valid() && r.mem[..] == mem
      invariant Continues(mem, ss, calls, results, r.buffer.buffers, calls[i..])
    {
      ghost var now := r.buffer.buffers;
      PlayNext(mem, ss, calls, results, now, calls[i..]);
      assert calls[i..][1..] == calls[i + 1..] && calls[i..][0] == calls[i];
      var one := PlayOne(r, calls[i]);
      results := results + [one];
      i := i + 1;
    }
    assert results + [] == results;
  }

  method PlayOne(r: Reader, call: Call) returns (one: Option<Bytes>)
    requires r.Valid()
    modifies r.buffer
    ensures r.Valid()
    ensures (one, r.buffer.buffers) == OneCall(r.mem[..], old(r.buffer.buffers), call)
  {
    ghost var cells := Cells(r.buffer.buffers);
    match call
    case Exact(n) => one := r.ReadObj(n);
    case Gather(count) =>
      PickCells(r.buffer.buffers, count);
      ViewPrefix(r.mem[..], cells, |Cells(Pick(r.buffer.buffers, count))|);
      var dst := new BufferWrapper([]);
      var _ := r.ReadToAt(dst, count);
      one := Some(dst.buffer);
  }

  /** Result of a call and the slices it leaves. */
  function OneCall(mem: Bytes, ss: seq<Slice>, call: Call): (Option<Bytes>, seq<Slice>) {
    match call
    case Exact(n) =>
      if n <= |Cells(ss)| then (Some(View(mem, Cells(ss))[..n]), AfterExact(ss, n)) else (None, [])
    case Gather(count) => (Some(View(mem, Cells(Pick(ss, count)))), AfterGather(ss, count))
  }

  ghost predicate Continues(mem: Bytes, ss: seq<Slice>, calls: seq<Call>,
                            done: seq<Option<Bytes>>, now: seq<Slice>, rest: seq<Call>)
  {
    Perform(mem, ss, calls) == (done + Perform(mem, now, rest).0, Perform(mem, now, rest).1)
  }

  lemma PlayNext(mem: Bytes, ss: seq<Slice>, calls: seq<Call>,
                 done: seq<Option<Bytes>>, now: seq<Slice>, rest: seq<Call>)
    requires rest != [] && Continues(mem, ss, calls, done, now, rest)
    ensures var (one, next) := OneCall(mem, now, rest[0]);
      Continues(mem, ss, calls, done + [one], next, rest[1..])
  {
    var (one, next) := OneCall(mem, now, rest[0]);
    var after := Perform(mem, next, rest[1..]).0;
    assert Perform(mem, now, rest).0 == [one] + after;
    assert done + ([one] + after) == done + [one] + after;
  }

  /** Without the condition it fails: one slice of two bytes against two slices of one,
      gathering one byte. */
  lemma GatherSeesSlices()
    ensures var mem: Bytes := [7, 8];
            var joined, cut := [Slice(0, 2)], [Slice(0, 1), Slice(1, 1)];
      && View(mem, Cells(joined)) == View(mem, Cells(cut))
      && Perform(mem, joined, [Gather(1)]).0 != Perform(mem, cut, [Gather(1)]).0
  {
    var mem: Bytes := [7, 8];
    var joined, cut := [Slice(0, 2)], [Slice(0, 1), Slice(1, 1)];
    assert joined[1..] == [] && cut[1..] == [Slice(1, 1)] && cut[1..][1..] == [];
    assert Cells(joined) == [0, 1] == Cells(cut);
    assert Pick(joined, 1) == [Slice(0, 2)];
    assert Pick(cut, 1) == [Slice(0, 1)];
    assert Pick(cut, 1)[1..] == [];
    assert Cells(Pick(cut, 1)) == [0];
    var a, b := Perform(mem, joined, [Gather(1)]).0, Perform(mem, cut, [Gather(1)]).0;
    assert a[0] == Some(View(mem, [0, 1])) && b[0] == Some(View(mem, [0]));
    assert |a[0].value| == 2 && |b[0].value| == 1;
  }
}
