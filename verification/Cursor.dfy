/** `Reader`, `Writer` and `BufferWrapper`: copying between host buffers and the
    guest's slices.  Guest memory is one shared array of bytes. */
module Cursor {
  import opened GuestMemory
  import opened Chain

  // ---- how the copy loops walk a chain ------------------------------------

  lemma CellsStep(bufs: seq<Slice>, i: nat)
    requires i < |bufs|
    ensures Cells(bufs[..i + 1]) == Cells(bufs[..i]) + Range(bufs[i].addr, bufs[i].len)
    ensures |Cells(bufs[..i + 1])| <= |Cells(bufs)|
    ensures Cells(bufs)[|Cells(bufs[..i])|..][..bufs[i].len] == Range(bufs[i].addr, bufs[i].len)
  {
    assert bufs[..i + 1] == bufs[..i] + [bufs[i]];
    CellsAppend(bufs[..i], [bufs[i]]);
    assert bufs == bufs[..i + 1] + bufs[i + 1..];
    CellsAppend(bufs[..i + 1], bufs[i + 1..]);
  }

  /** Filling the next slice continues the flat write. */
  lemma PutSlice(mem: Bytes, bufs: seq<Slice>, i: nat, done: Bytes, d: Bytes)
    requires i < |bufs| && |done| == |Cells(bufs[..i])| && |d| <= bufs[i].len
    ensures |done + d| <= |Cells(bufs)|
    ensures Put(Put(mem, Cells(bufs), done), Range(bufs[i].addr, |d|), d)
         == Put(mem, Cells(bufs), done + d)
  {
    hide Put, Cells, Range;
    CellsStep(bufs, i);
    var cells := Cells(bufs);
    var here := Range(bufs[i].addr, |d|);
    var rest := cells[|done|..];
    StartsWith(rest, bufs[i].addr, bufs[i].len, |d|);
    PutPrefix(Put(mem, cells, done), here, rest[|d|..], d);
    PutThenPut(mem, cells, done, d);
  }

  lemma StartsWith(cells: seq<nat>, addr: nat, len: nat, n: nat)
    requires n <= len <= |cells| && cells[..len] == Range(addr, len)
    ensures cells == Range(addr, n) + cells[n..]
  {
    assert Range(addr, n) == cells[..len][..n] == cells[..n];
  }

  lemma SliceWithin(bufs: seq<Slice>, i: nat, size: nat)
    requires i < |bufs| && Within(Cells(bufs), size)
    ensures bufs[i].len > 0 ==> bufs[i].addr + bufs[i].len <= size
  {
    CellsStep(bufs, i);
    if bufs[i].len > 0 {
      var at := |Cells(bufs[..i])| + bufs[i].len - 1;
      assert Cells(bufs)[at] == Cells(bufs)[|Cells(bufs[..i])|..][..bufs[i].len][bufs[i].len - 1];
    }
  }

  /** `copy_nonoverlapping` from a host buffer into guest memory. */
  method CopyToGuest(mem: array<u8>, addr: nat, data: Bytes)
    requires |data| > 0 ==> addr + |data| <= mem.Length
    modifies mem
    ensures mem[..] == Put(old(mem[..]), Range(addr, |data|), data)
  {
    var i := 0;
    while i < |data|
      invariant 0 <= i <= |data|
      invariant mem[..] == Put(old(mem[..]), Range(addr, |data|), data[..i])
    {
      assert data[..i + 1][..i] == data[..i];
      mem[addr + i] := data[i];
      i := i + 1;
    }
    assert data[..i] == data;
  }

  /** s with d laid over it from position `at`. */
  function Overlay(s: Bytes, at: nat, d: Bytes): (r: Bytes)
    requires at + |d| <= |s|
    ensures |r| == |s|
  {
    s[..at] + d + s[at + |d|..]
  }

  lemma OverlayNext(before: Bytes, left: Bytes, done: nat, n: nat)
    requires done + n <= |before| && done + n <= |left| && before[..done] == left[..done]
    ensures Overlay(before, done, left[done..][..n])[..done + n] == left[..done + n]
    ensures left[done..][n..] == left[done + n..]
  {
    assert left[done..][..n] == left[done..done + n];
    assert left[..done] + left[done..done + n] == left[..done + n];
    assert Overlay(before, done, left[done..][..n])[..done + n] == before[..done] + left[done..done + n];
  }

  lemma OverlayPoints(before: Bytes, now: Bytes, start: nat, d: Bytes)
    requires |now| == |before| && start + |d| <= |now|
    requires forall k :: 0 <= k < |now| ==>
               now[k] == if start <= k < start + |d| then d[k - start] else before[k]
    ensures now == Overlay(before, start, d)
  {
  }

  /** Slice i occupies its addresses in the flat form. */
  lemma SliceCells(bufs: seq<Slice>, i: nat)
    requires i < |bufs|
    ensures |Cells(bufs[..i + 1])| == |Cells(bufs[..i])| + bufs[i].len <= |Cells(bufs)|
    ensures forall k :: |Cells(bufs[..i])| <= k < |Cells(bufs[..i + 1])| ==>
              Cells(bufs)[k] == bufs[i].addr + k - |Cells(bufs[..i])|
  {
    CellsStep(bufs, i);
    var at := |Cells(bufs[..i])|;
    forall k | at <= k < at + bufs[i].len
      ensures Cells(bufs)[k] == bufs[i].addr + k - at
    {
      assert Cells(bufs)[k] == Cells(bufs)[at..][..bufs[i].len][k - at];
    }
  }

  /** The gather loop: copy slice after slice into dst from `start` until one of
      the two is exhausted. */
  method GatherInto(mem: array<u8>, bufs: seq<Slice>, dst: array<u8>, start: nat) returns (n: nat)
    requires Within(Cells(bufs), mem.Length) && dst != mem && start <= dst.Length
    modifies dst
    ensures n == Min(dst.Length - start, |Cells(bufs)|)
    ensures dst[..] == Overlay(old(dst[..]), start, View(mem[..], Cells(bufs))[..n])
  {
    ghost var m, all := mem[..], View(mem[..], Cells(bufs));
    n := 0;
    var i := 0;
    while i < |bufs|
      invariant 0 <= i <= |bufs| && n == Min(dst.Length - start, |Cells(bufs[..i])|)
      invariant n <= |all| && mem[..] == m
      invariant forall k :: 0 <= k < dst.Length ==>
                  dst[k] == if start <= k < start + n then all[k - start] else old(dst[k])
    {
      SliceCells(bufs, i);
      SliceWithin(bufs, i, mem.Length);
      var copyLen := Min(dst.Length - start - n, bufs[i].len);
      CopyFromGuest(mem, bufs[i].addr, copyLen, dst, start + n);
      n := n + copyLen;
      i := i + 1;
    }
    assert bufs[..|bufs|] == bufs;
    OverlayPoints(old(dst[..]), dst[..], start, all[..n]);
  }

  /** `copy_nonoverlapping` from guest memory into a host buffer. */
  method CopyFromGuest(mem: array<u8>, addr: nat, n: nat, dst: array<u8>, at: nat)
    requires n > 0 ==> addr + n <= mem.Length
    requires dst != mem && at + n <= dst.Length
    modifies dst
    ensures forall k :: 0 <= k < dst.Length ==>
              dst[k] == if at <= k < at + n then mem[addr + k - at] else old(dst[k])
  {
    var i := 0;
    while i < n
      invariant 0 <= i <= n
      invariant forall k :: 0 <= k < dst.Length ==>
                  dst[k] == if at <= k < at + i then mem[addr + k - at] else old(dst[k])
    {
      dst[at + i] := mem[addr + i];
      i := i + 1;
    }
  }

  // ---- BufferWrapper ------------------------------------------------------

  /** How much of `size` bytes the scatter loop places: it fills whole slices in
      order and gives up at the first empty one. */
  function ScatterLen(bufs: seq<Slice>, size: nat): (n: nat)
    ensures n <= size && n <= |Cells(bufs)|
  {
    if bufs == [] || size == 0 || bufs[0].len == 0 then 0
    else
      var num := Min(size, bufs[0].len);
      num + ScatterLen(bufs[1..], size - num)
  }

  /** Bytes in front of the first empty slice. */
  function LeadingRoom(bufs: seq<Slice>): nat {
    if bufs == [] || bufs[0].len == 0 then 0 else bufs[0].len + LeadingRoom(bufs[1..])
  }

  lemma {:induction false} ScatterExact(bufs: seq<Slice>, size: nat)
    ensures ScatterLen(bufs, size) == Min(size, LeadingRoom(bufs))
  {
    if bufs != [] && size != 0 && bufs[0].len != 0 {
      ScatterExact(bufs[1..], size - Min(size, bufs[0].len));
    }
  }

  lemma {:induction false} LeadingRoomAll(bufs: seq<Slice>)
    ensures NoEmpty(bufs) ==> LeadingRoom(bufs) == |Cells(bufs)|
  {
    if bufs != [] {
      LeadingRoomAll(bufs[1..]);
    }
  }

  lemma {:induction false} LeadingRoomPick(ss: seq<Slice>, count: nat)
    ensures Min(count, LeadingRoom(Pick(ss, count))) == Min(count, LeadingRoom(ss))
  {
    if ss != [] && count != 0 && ss[0].len != 0 {
      var rest := if count < ss[0].len then 0 else count - ss[0].len;
      LeadingRoomPick(ss[1..], rest);
      assert Pick(ss, count)[1..] == Pick(ss[1..], rest);
    }
  }

  /** What `write_from_at(buf, |buf|)` places: all that fits before the first empty
      slice; with no empty slice, all that fits. */
  lemma ScatterWhole(ss: seq<Slice>, size: nat)
    ensures ScatterLen(Pick(ss, size), size) == Min(size, LeadingRoom(ss))
    ensures NoEmpty(ss) ==> ScatterLen(Pick(ss, size), size) == Min(size, |Cells(ss)|)
  {
    ScatterExact(Pick(ss, size), size);
    LeadingRoomPick(ss, size);
    LeadingRoomAll(ss);
  }

  ghost predicate ScatterTodo(bufs: seq<Slice>, size: nat, i: nat, done: nat) {
    && i <= |bufs| && done <= size
    && ScatterLen(bufs, size) == done + ScatterLen(bufs[i..], size - done)
  }

  lemma ScatterNext(bufs: seq<Slice>, size: nat, i: nat, done: nat)
    requires i < |bufs| && ScatterTodo(bufs, size, i, done)
    ensures var num := Min(size - done, bufs[i].len);
      if num == 0 then ScatterLen(bufs, size) == done
      else ScatterTodo(bufs, size, i + 1, done + num)
  {
    assert bufs[i..][1..] == bufs[i + 1..];
  }

  class BufferWrapper {
    var buffer: Bytes

    constructor (buffer: Bytes)
      ensures this.buffer == buffer
    {
      this.buffer := buffer;
    }

    /** Scatter the buffer over the slices. */
    method ReadVectored(mem: array<u8>, bufs: seq<Slice>) returns (result: nat)
      requires Within(Cells(bufs), mem.Length)
      modifies mem
      ensures result == ScatterLen(bufs, |buffer|)
      ensures mem[..] == Put(old(mem[..]), Cells(bufs), buffer[..result])
    {
      hide Put;
      hide Cells;
      ghost var mem0, m := mem[..], mem[..];
      var data := buffer;
      FillStart(mem0, bufs, data);
      result := 0;
      var i := 0;
      while i < |bufs|
        invariant mem[..] == m && Filled(mem0, m, bufs, data, i, result)
        invariant ScatterTodo(bufs, |data|, i, result)
        decreases |bufs| - i
      {
        var num := Min(|data| - result, bufs[i].len);
        ScatterNext(bufs, |data|, i, result);
        if num == 0 {
          return;
        }
        SliceWithin(bufs, i, mem.Length);
        FillNext(mem0, m, bufs, data, i, result);
        CopyToGuest(mem, bufs[i].addr, data[result..result + num]);
        m := mem[..];
        result := result + num;
        i := i + 1;
      }
    }

    /** Gather all bytes of the slices into a new buffer. */
    method WriteVectored(mem: array<u8>, bufs: seq<Slice>) returns (len: nat)
      requires Within(Cells(bufs), mem.Length) && bufs != []
      modifies this
      ensures len == |Cells(bufs)|
      ensures buffer == View(mem[..], Cells(bufs))
    {
      len := TotalLen(bufs);
      var data := new u8[len](_ => 0);
      var _ := GatherInto(mem, bufs, data, 0);
      buffer := data[..];
    }
  }

  method TotalLen(bufs: seq<Slice>) returns (len: nat)
    ensures len == |Cells(bufs)|
  {
    len := 0;
    for i := 0 to |bufs|
      invariant len == |Cells(bufs[..i])|
    {
      CellsStep(bufs, i);
      len := len + bufs[i].len;
    }
    assert bufs[..|bufs|] == bufs;
  }

  /** The first `done` bytes of data have been stored, filling the slices before i
      unless the data ran out. */
  ghost predicate Filled(mem0: Bytes, mem: Bytes, bufs: seq<Slice>, data: Bytes, i: nat, done: nat) {
    && i <= |bufs| && done <= |Cells(bufs)|
    && done == Min(|data|, |Cells(bufs[..i])|)
    && mem == Put(mem0, Cells(bufs), data[..done])
  }

  lemma FillStart(mem: Bytes, bufs: seq<Slice>, data: Bytes)
    ensures Filled(mem, mem, bufs, data, 0, 0)
  {
    assert bufs[..0] == [] && data[..0] == [];
  }

  lemma FillEnd(mem0: Bytes, mem: Bytes, bufs: seq<Slice>, data: Bytes, done: nat)
    requires Filled(mem0, mem, bufs, data, |bufs|, done)
    ensures done == Min(|data|, |Cells(bufs)|)
  {
    assert bufs[..|bufs|] == bufs;
  }

  lemma FillNext(mem0: Bytes, mem: Bytes, bufs: seq<Slice>, data: Bytes, i: nat, done: nat)
    requires i < |bufs| && Filled(mem0, mem, bufs, data, i, done)
    ensures var num := Min(|data| - done, bufs[i].len);
      Filled(mem0, Put(mem, Range(bufs[i].addr, num), data[done..done + num]), bufs, data, i + 1, done + num)
  {
    var num := Min(|data| - done, bufs[i].len);
    var d := data[done..done + num];
    CellsStep(bufs, i);
    if num > 0 {
      PutSlice(mem0, bufs, i, data[..done], d);
    }
    assert data[..done] + d == data[..done + num];
  }

  /** The copy loop of `write`: no slice stops it, not even an empty one. */
  method CopyIn(mem: array<u8>, bufs: seq<Slice>, data: Bytes) returns (n: nat)
    requires Within(Cells(bufs), mem.Length)
    modifies mem
    ensures n == Min(|data|, |Cells(bufs)|)
    ensures mem[..] == Put(old(mem[..]), Cells(bufs), data[..n])
  {
    hide Put;
    hide Cells;
    ghost var mem0, m := mem[..], mem[..];
    FillStart(mem0, bufs, data);
    n := 0;
    var i := 0;
    while i < |bufs|
      invariant mem[..] == m && Filled(mem0, m, bufs, data, i, n)
      decreases |bufs| - i
    {
      SliceWithin(bufs, i, mem.Length);
      FillNext(mem0, m, bufs, data, i, n);
      var copyLen := Min(|data| - n, bufs[i].len);
      CopyToGuest(mem, bufs[i].addr, data[n..n + copyLen]);
      m := mem[..];
      n := n + copyLen;
      i := i + 1;
    }
    FillEnd(mem0, m, bufs, data, n);
  }

  // ---- creating the consumers ---------------------------------------------

  /** A descriptor starts inside the memory region, even an empty one, and ends in it. */
  predicate InRegion(desc: Slice, size: nat) { desc.addr < size && desc.addr + desc.len <= size }

  /** The descriptors a queue entry names, checked against guest memory. */
  predicate Mapped(descs: seq<Slice>, size: nat) {
    && (forall i :: 0 <= i < |descs| ==> InRegion(descs[i], size))
    && |Cells(descs)| <= USIZE_MAX
  }

  /** Accepted are exactly the chains all of whose cells lie in memory and whose empty
      slices start there. */
  lemma {:induction false} MappedExactly(descs: seq<Slice>, size: nat)
    ensures Mapped(descs, size) <==>
              && Within(Cells(descs), size) && |Cells(descs)| <= USIZE_MAX
              && forall i :: 0 <= i < |descs| && descs[i].len == 0 ==> descs[i].addr < size
  {
    if forall i :: 0 <= i < |descs| ==> InRegion(descs[i], size) {
      WithinSlices(descs, size);
    }
    if Within(Cells(descs), size) {
      forall i | 0 <= i < |descs| && descs[i].len > 0 ensures InRegion(descs[i], size) {
        SliceWithin(descs, i, size);
      }
    }
  }

  method NewBuffers(descs: seq<Slice>, size: nat) returns (r: Option<seq<Slice>>)
    ensures r == if Mapped(descs, size) then Some(descs) else None
    ensures r.Some? ==> Within(Cells(descs), size)
  {
    var len := 0;
    var i := 0;
    assert descs[..|descs|] == descs;
    while i < |descs|
      invariant 0 <= i <= |descs| && len == |Cells(descs[..i])| <= USIZE_MAX
      invariant forall k :: 0 <= k < i ==> InRegion(descs[k], size)
    {
      CellsStep(descs, i);
      if len + descs[i].len > USIZE_MAX {
        return None;
      }
      len := len + descs[i].len;
      if descs[i].addr >= size {
        return None;  // no region holds the address
      }
      if descs[i].addr + descs[i].len > size {
        return None;
      }
      i := i + 1;
    }
    WithinSlices(descs, size);
    return Some(descs);
  }

  /** Copying from the selected slices moves the next bytes of the whole chain. */
  lemma Gathers(mem: Bytes, ss: seq<Slice>, count: nat, before: Bytes, start: nat)
    requires start + count == |before|
    ensures var bufs, n := Pick(ss, count), Min(count, |Cells(ss)|);
            var all := View(mem, Cells(ss));
      && n == Min(count, |Cells(bufs)|) <= |Cells(ss)| && |Cells(bufs)| <= |Cells(ss)|
      && Cells(bufs) == Cells(ss)[..|Cells(bufs)|]
      && View(mem, Cells(bufs))[..n] == all[..n] && View(mem, Cells(ss)[n..]) == all[n..]
      && (bufs == [] <==> count == 0 || ss == [])
      && (bufs == [] ==>
            n == 0 && Overlay(before, start, all[..0]) == before && all[0..] == all)
  {
    var bufs := Pick(ss, count);
    PickCells(ss, count);
    PickShortest(ss, count);
    ViewPrefix(mem, Cells(ss), |Cells(bufs)|);
    ViewPrefix(mem, Cells(ss), Min(count, |Cells(ss)|));
    if bufs == [] {
      assert Cells(bufs) == [];
    }
  }

  // ---- Reader -------------------------------------------------------------

  class Reader {
    const mem: array<u8>
    const buffer: DescriptorChainConsumer

    ghost predicate Valid()
      reads buffer
    {
      buffer.Valid() && Within(Cells(buffer.buffers), mem.Length)
    }

    /** The bytes still to be read. */
    ghost function Left(): Bytes
      reads buffer, mem
    {
      View(mem[..], Cells(buffer.buffers))
    }

    constructor (mem: array<u8>, buffers: seq<Slice>)
      requires |Cells(buffers)| <= USIZE_MAX && Within(Cells(buffers), mem.Length)
      ensures Valid() && fresh(buffer) && this.mem == mem
      ensures buffer.buffers == buffers
    {
      this.mem := mem;
      this.buffer := new DescriptorChainConsumer(buffers);
    }

    /** Fill buf from position `start`; moves min(room, remaining) bytes. */
    method Read(buf: array<u8>, start: nat) returns (n: nat)
      requires Valid() && buf != mem && start <= buf.Length
      modifies buffer, buf
      ensures Valid()
      ensures n == Min(buf.Length - start, |old(Left())|)
      ensures buf[..] == Overlay(old(buf[..]), start, old(Left())[..n])
      ensures Left() == old(Left())[n..]
      ensures start < buf.Length && old(buffer.buffers) != [] ==>
                buffer.buffers == Advance(old(buffer.buffers), n)
      ensures start == buf.Length || old(buffer.buffers) == [] ==>
                buffer.buffers == old(buffer.buffers)
      ensures buffer.bytesConsumed == old(buffer.bytesConsumed) + n
    {
      hide Cells, Pick, Advance, Overlay, View;
      ghost var ss, before := buffer.buffers, buf[..];
      var count := buf.Length - start;
      var bufs := buffer.Select(count);
      Gathers(mem[..], ss, count, before, start);
      if bufs == [] {
        return 0;
      }
      n := GatherInto(mem, bufs, buf, start);
      buffer.Commit(n);
    }

    /** `read_exact`: repeat `read` until buf is full or nothing comes. */
    method ReadExact(buf: array<u8>) returns (ok: bool)
      requires Valid() && buf != mem
      modifies buffer, buf
      ensures Valid()
      ensures ok <==> buf.Length <= |old(Left())|
      ensures ok ==> buf[..] == old(Left())[..buf.Length]
      ensures Left() == old(Left())[Min(buf.Length, |old(Left())|)..]
      ensures buffer.buffers == if ok then AfterExact(old(buffer.buffers), buf.Length) else []
      ensures buffer.bytesConsumed == old(buffer.bytesConsumed) + Min(buf.Length, |old(Left())|)
    {
      hide Cells, Advance, View, Overlay;
      ghost var left := Left();
      ghost var ss := buffer.buffers;
      AdvanceAll(ss);
      var done := 0;
      while done < buf.Length
        invariant Valid() && done <= buf.Length && done <= |left|
        invariant done == 0 || done == Min(buf.Length, |left|)
        invariant buf[..done] == left[..done] && Left() == left[done..]
        invariant done > 0 ==> buffer.buffers == Advance(ss, done)
        invariant done == 0 ==> buffer.buffers == ss
        invariant buffer.bytesConsumed == old(buffer.bytesConsumed) + done
        decreases buf.Length - done
      {
        ghost var before := buf[..];
        var n := Read(buf, done);
        if n == 0 {
          return false;
        }
        OverlayNext(before, left, done, n);
        done := done + n;
      }
      ok := true;
    }

    /** `read_obj`: the bytes of a fixed-size structure. */
    method ReadObj(size: nat) returns (r: Option<Bytes>)
      requires Valid()
      modifies buffer
      ensures Valid()
      ensures r == if size <= |old(Left())| then Some(old(Left())[..size]) else None
      ensures buffer.buffers == if r.Some? then AfterExact(old(buffer.buffers), size) else []
      ensures r.Some? ==> Left() == old(Left())[size..]
      ensures buffer.bytesConsumed == old(buffer.bytesConsumed) + Min(size, |old(Left())|)
    {
      var buf := new u8[size](_ => 0);
      var ok := ReadExact(buf);
      r := if ok then Some(buf[..]) else None;
    }

    /** `read_to_at`: gather whole slices until `count` bytes are covered. */
    method ReadToAt(dst: BufferWrapper, count: nat) returns (n: nat)
      requires Valid()
      modifies buffer, dst
      ensures Valid()
      ensures n == |Cells(Pick(old(buffer.buffers), count))|
      ensures n <= |old(Left())|
      ensures dst.buffer == if Pick(old(buffer.buffers), count) == [] then old(dst.buffer)
                            else old(Left())[..n]
      ensures Left() == old(Left())[n..]
      ensures buffer.buffers == AfterGather(old(buffer.buffers), count)
      ensures buffer.bytesConsumed == old(buffer.bytesConsumed) + n
    {
      ghost var cells := Cells(buffer.buffers);
      var bufs := buffer.Select(count);
      PickCells(buffer.buffers, count);
      if bufs == [] {
        return 0;
      }
      n := dst.WriteVectored(mem, bufs);
      ViewPrefix(mem[..], cells, n);
      buffer.Commit(n);
    }
  }

  /** Slices left after a successful exact read; reading nothing touches nothing. */
  function AfterExact(ss: seq<Slice>, n: nat): seq<Slice> {
    if n == 0 then ss else Advance(ss, n)
  }

  /** Slices left after a gather; one that selects nothing touches nothing. */
  function AfterGather(ss: seq<Slice>, count: nat): seq<Slice> {
    if Pick(ss, count) == [] then ss else Advance(ss, |Cells(Pick(ss, count))|)
  }

  lemma AfterExactCells(ss: seq<Slice>, n: nat)
    requires n <= |Cells(ss)|
    ensures Cells(AfterExact(ss, n)) == Cells(ss)[n..]
  {
    CellsAdvance(ss, n);
  }

  // ---- Writer -------------------------------------------------------------

  class Writer {
    const mem: array<u8>
    const buffer: DescriptorChainConsumer

    ghost predicate Valid()
      reads buffer
    {
      buffer.Valid() && Within(Cells(buffer.buffers), mem.Length)
    }

    /** The cells still to be written. */
    ghost function Room(): seq<nat>
      reads buffer
    {
      Cells(buffer.buffers)
    }

    constructor (mem: array<u8>, buffer: DescriptorChainConsumer)
      requires buffer.Valid() && Within(Cells(buffer.buffers), mem.Length)
      ensures Valid() && this.mem == mem && this.buffer == buffer
    {
      this.mem := mem;
      this.buffer := buffer;
    }

    method BytesWritten() returns (n: nat)
      ensures n == buffer.bytesConsumed
    {
      n := buffer.bytesConsumed;
    }

    method SplitAt(offset: nat) returns (r: Option<Writer>)
      requires Valid()
      modifies buffer
      ensures Valid() && buffer.bytesConsumed == old(buffer.bytesConsumed)
      ensures r.Some? <==> offset <= |old(Room())|
      ensures r.None? ==> buffer.buffers == old(buffer.buffers)
      ensures r.Some? ==>
        && fresh(r.value) && fresh(r.value.buffer) && r.value.mem == mem && r.value.Valid()
        && r.value.buffer.bytesConsumed == 0
        && Split(old(buffer.buffers), offset) == Some((buffer.buffers, r.value.buffer.buffers))
        && Room() == old(Room())[..offset] && r.value.Room() == old(Room())[offset..]
    {
      var c := buffer.SplitAt(offset);
      match c
      case None => r := None;
      case Some(tail) =>
        var w := new Writer(mem, tail);
        r := Some(w);
    }

    /** One `write`: moves min(|data|, remaining) bytes. */
    method Write(data: Bytes) returns (n: nat)
      requires Valid()
      modifies buffer, mem
      ensures Valid()
      ensures n == Min(|data|, |old(Room())|)
      ensures mem[..] == Put(old(mem[..]), old(Room()), data[..n])
      ensures Room() == old(Room())[n..]
      ensures buffer.bytesConsumed == old(buffer.bytesConsumed) + n
    {
      ghost var cells := Cells(buffer.buffers);
      var bufs := buffer.Select(|data|);
      PickCells(buffer.buffers, |data|);
      PickShortest(buffer.buffers, |data|);
      if bufs == [] {
        return 0;
      }
      PutPrefix(mem[..], Cells(bufs), cells[|Cells(bufs)|..], data[..Min(|data|, |Cells(bufs)|)]);
      assert cells == Cells(bufs) + cells[|Cells(bufs)|..];
      n := CopyIn(mem, bufs, data);
      buffer.Commit(n);
    }

    /** `write_all`: a write that does not fit still fills the chain. */
    method WriteAll(data: Bytes) returns (ok: bool)
      requires Valid()
      modifies buffer, mem
      ensures Valid()
      ensures ok <==> |data| <= |old(Room())|
      ensures var n := Min(|data|, |old(Room())|);
        && mem[..] == Put(old(mem[..]), old(Room()), data[..n])
        && Room() == old(Room())[n..]
        && buffer.bytesConsumed == old(buffer.bytesConsumed) + n
    {
      hide Cells;
      hide Put;
      ghost var mem0, cells := mem[..], Room();
      PutNothing(mem0, cells);
      var done := 0;
      assert data[..done] == [];
      while done < |data|
        invariant Valid() && done <= |data| && done <= |cells|
        invariant Room() == cells[done..]
        invariant mem[..] == Put(mem0, cells, data[..done])
        invariant buffer.bytesConsumed == old(buffer.bytesConsumed) + done
        decreases |data| - done
      {
        var n := Write(data[done..]);
        PutThenPut(mem0, cells, data[..done], data[done..][..n]);
        assert data[..done] + data[done..][..n] == data[..done + n];
        if n == 0 {
          return false;
        }
        done := done + n;
      }
      assert data[..done] == data;
      ok := true;
    }

    /** `write_from_at`: scatter a buffer over the chain. */
    method WriteFromAt(src: BufferWrapper, count: nat) returns (n: nat)
      requires Valid()
      modifies buffer, mem
      ensures Valid() && src.buffer == old(src.buffer)
      ensures n == ScatterLen(Pick(old(buffer.buffers), count), |src.buffer|)
      ensures n <= |old(Room())|
      ensures mem[..] == Put(old(mem[..]), old(Room()), src.buffer[..n])
      ensures Room() == old(Room())[n..]
      ensures buffer.bytesConsumed == old(buffer.bytesConsumed) + n
    {
      ghost var cells := Cells(buffer.buffers);
      var bufs := buffer.Select(count);
      PickCells(buffer.buffers, count);
      if bufs == [] {
        return 0;
      }
      n := src.ReadVectored(mem, bufs);
      assert cells == Cells(bufs) + cells[|Cells(bufs)|..];
      PutPrefix(old(mem[..]), Cells(bufs), cells[|Cells(bufs)|..], src.buffer[..n]);
      buffer.Commit(n);
    }
  }
}
