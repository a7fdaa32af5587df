/** Guest memory as the device sees it: a flat array of bytes, and the descriptor
    slices that cut it up.  The meaning of a chain of slices is the sequence of
    addresses ("cells") it visits; reading a chain is `View` along its cells and
    writing to it is `Put` along its cells.  Neither assumes that slices are
    disjoint: a chain that visits a cell twice is read twice and written twice. */
module GuestMemory {
  newtype u8 = x: int | 0 <= x < 256
  type Bytes = seq<u8>

  datatype Slice = Slice(addr: nat, len: nat)

  function Min(a: nat, b: nat): nat { if a <= b then a else b }

  function Range(addr: nat, len: nat): (r: seq<nat>)
    ensures |r| == len
    ensures forall i :: 0 <= i < len ==> r[i] == addr + i
  {
    seq(len, i requires 0 <= i => addr + i)
  }

  /** The addresses a chain visits, in order: its flat form. */
  function Cells(ss: seq<Slice>): seq<nat> {
    if ss == [] then [] else Range(ss[0].addr, ss[0].len) + Cells(ss[1..])
  }

  predicate Within(cells: seq<nat>, size: nat) {
    forall i :: 0 <= i < |cells| ==> cells[i] < size
  }

  ghost predicate NoDup(cells: seq<nat>) {
    forall i, j :: 0 <= i < j < |cells| ==> cells[i] != cells[j]
  }

  /** No slice of the chain is empty. */
  predicate NoEmpty(ss: seq<Slice>) {
    forall i :: 0 <= i < |ss| ==> ss[i].len > 0
  }

  function ByteAt(mem: Bytes, a: nat): u8 { if a < |mem| then mem[a] else 0 }

  function View(mem: Bytes, cells: seq<nat>): (r: Bytes)
    ensures |r| == |cells|
    ensures forall i :: 0 <= i < |cells| ==> r[i] == ByteAt(mem, cells[i])
  {
    seq(|cells|, i requires 0 <= i < |cells| => ByteAt(mem, cells[i]))
  }

  function Store(mem: Bytes, a: nat, b: u8): (r: Bytes)
    ensures |r| == |mem|
  {
    if a < |mem| then mem[a := b] else mem
  }

  /** Store `data` byte after byte along the first |data| cells. */
  function Put(mem: Bytes, cells: seq<nat>, data: Bytes): (r: Bytes)
    requires |data| <= |cells|
    ensures |r| == |mem|
    decreases |data|
  {
    if data == [] then mem
    else
      var n := |data| - 1;
      Store(Put(mem, cells, data[..n]), cells[n], data[n])
  }

  // ---- cells of a chain ---------------------------------------------------

  lemma {:induction false} CellsAppend(a: seq<Slice>, b: seq<Slice>)
    ensures Cells(a + b) == Cells(a) + Cells(b)
  {
    if a == [] {
      assert a + b == b;
    } else {
      assert (a + b)[1..] == a[1..] + b;
      CellsAppend(a[1..], b);
    }
  }

  lemma {:induction false} WithinSlices(ss: seq<Slice>, size: nat)
    requires forall i :: 0 <= i < |ss| ==> ss[i].addr + ss[i].len <= size
    ensures Within(Cells(ss), size)
  {
    if ss != [] {
      WithinSlices(ss[1..], size);
    }
  }

  lemma ViewPrefix(mem: Bytes, cells: seq<nat>, n: nat)
    requires n <= |cells|
    ensures View(mem, cells[..n]) == View(mem, cells)[..n]
    ensures View(mem, cells[n..]) == View(mem, cells)[n..]
  {
  }

  // ---- Put ----------------------------------------------------------------

  lemma PutNothing(mem: Bytes, cells: seq<nat>)
    ensures Put(mem, cells, []) == mem
  {
  }

  /** Only the leading |data| cells matter. */
  lemma {:induction false} PutPrefix(mem: Bytes, cells: seq<nat>, more: seq<nat>, data: Bytes)
    requires |data| <= |cells|
    ensures Put(mem, cells + more, data) == Put(mem, cells, data)
    decreases |data|
  {
    if data != [] {
      PutPrefix(mem, cells, more, data[..|data| - 1]);
    }
  }

  /** Two consecutive writes through a cursor are one write of both. */
  lemma {:induction false} PutThenPut(mem: Bytes, cells: seq<nat>, d1: Bytes, d2: Bytes)
    requires |d1| + |d2| <= |cells|
    ensures Put(Put(mem, cells, d1), cells[|d1|..], d2) == Put(mem, cells, d1 + d2)
    decreases |d2|
  {
    if d2 == [] {
      assert d1 + d2 == d1;
    } else {
      var n := |d2| - 1;
      PutThenPut(mem, cells, d1, d2[..n]);
      assert (d1 + d2)[..|d1| + n] == d1 + d2[..n];
    }
  }

  /** A write leaves every byte outside its leading |data| cells alone. */
  lemma {:induction false} PutFrame(mem: Bytes, cells: seq<nat>, data: Bytes, a: nat)
    requires |data| <= |cells| && a !in cells[..|data|]
    ensures ByteAt(Put(mem, cells, data), a) == ByteAt(mem, a)
    decreases |data|
  {
    if data != [] {
      var n := |data| - 1;
      assert cells[n] in cells[..|data|];
      assert forall c :: c in cells[..n] ==> c in cells[..|data|];
      PutFrame(mem, cells, data[..n], a);
    }
  }

  lemma {:induction false} PutAt(mem: Bytes, cells: seq<nat>, data: Bytes, i: nat)
    requires i < |data| <= |cells| && NoDup(cells) && Within(cells, |mem|)
    ensures ByteAt(Put(mem, cells, data), cells[i]) == data[i]
    decreases |data|
  {
    var n := |data| - 1;
    if i < n {
      PutAt(mem, cells, data[..n], i);
    }
  }

  /** What the guest reads back along cells it handed out without repetition. */
  lemma ViewPut(mem: Bytes, cells: seq<nat>, data: Bytes)
    requires |data| <= |cells| && NoDup(cells) && Within(cells, |mem|)
    ensures View(Put(mem, cells, data), cells) == data + View(mem, cells)[|data|..]
  {
    var v := View(Put(mem, cells, data), cells);
    forall i | 0 <= i < |cells|
      ensures v[i] == (data + View(mem, cells)[|data|..])[i]
    {
      if i < |data| {
        PutAt(mem, cells, data, i);
      } else {
        PutFrame(mem, cells, data, cells[i]);
      }
    }
  }

  lemma {:induction false} PutStore(mem: Bytes, cells: seq<nat>, data: Bytes, a: nat, b: u8)
    requires |data| <= |cells| && a !in cells
    ensures Put(Store(mem, a, b), cells, data) == Store(Put(mem, cells, data), a, b)
    decreases |data|
  {
    if data != [] {
      PutStore(mem, cells, data[..|data| - 1], a, b);
    }
  }

  /** Writes along disjoint cells commute. */
  lemma {:induction false} PutSwap(mem: Bytes, c1: seq<nat>, d1: Bytes, c2: seq<nat>, d2: Bytes)
    requires |d1| <= |c1| && |d2| <= |c2|
    requires forall x :: x in c1 ==> x !in c2
    ensures Put(Put(mem, c1, d1), c2, d2) == Put(Put(mem, c2, d2), c1, d1)
    decreases |d2|
  {
    if d2 != [] {
      var n := |d2| - 1;
      PutSwap(mem, c1, d1, c2, d2[..n]);
      PutStore(Put(mem, c2, d2[..n]), c1, d1, c2[n], d2[n]);
    }
  }

  lemma NoDupSplit(front: seq<nat>, back: seq<nat>)
    requires NoDup(front + back)
    ensures NoDup(front) && NoDup(back)
    ensures forall x :: x in front ==> x !in back
  {
    var all := front + back;
    forall i, j | 0 <= i < j < |front| ensures front[i] != front[j] {
      assert all[i] == front[i] && all[j] == front[j];
    }
    forall i, j | 0 <= i < j < |back| ensures back[i] != back[j] {
      assert all[|front| + i] == back[i] && all[|front| + j] == back[j];
    }
    forall x | x in front ensures x !in back {
      var i :| 0 <= i < |front| && front[i] == x;
      forall j | 0 <= j < |back| ensures back[j] != x {
        assert all[i] == x && all[|front| + j] == back[j];
      }
    }
  }

  /** Payload through the tail first and header through the front afterwards is
      the same as one sequential write of header and payload. */
  lemma OutOfOrder(mem: Bytes, front: seq<nat>, back: seq<nat>, header: Bytes, payload: Bytes)
    requires NoDup(front + back) && |header| == |front| && |payload| <= |back|
    ensures Put(Put(mem, back, payload), front, header) == Put(mem, front + back, header + payload)
  {
    NoDupSplit(front, back);
    PutSwap(mem, back, payload, front, header);
    PutThenPut(mem, front + back, header, payload);
    PutPrefix(mem, front, back, header);
    assert (front + back)[|header|..] == back;
  }
}
