/** The slice bookkeeping of `DescriptorChainConsumer`: which slices a request for
    `count` bytes selects, what is left after n bytes, and where a split falls.
    The functions are the specification; the class follows the source's loops. */
module Chain {
  import opened GuestMemory

  const USIZE_MAX: nat := 0xFFFF_FFFF_FFFF_FFFF

  datatype Option<+T> = None | Some(value: T)

  /** The slices handed to the copy loop: whole slices, taken until their total
      reaches `count`.  The last one is not trimmed. */
  function Pick(ss: seq<Slice>, count: nat): seq<Slice> {
    if ss == [] || count == 0 then []
    else [ss[0]] + Pick(ss[1..], if count < ss[0].len then 0 else count - ss[0].len)
  }

  /** What is left after n bytes have been consumed. */
  function Advance(ss: seq<Slice>, n: nat): seq<Slice> {
    if ss == [] then []
    else if n < ss[0].len then [Slice(ss[0].addr + n, ss[0].len - n)] + ss[1..]
    else Advance(ss[1..], n - ss[0].len)
  }

  /** Front and back of a chain cut after k bytes, if it has that many. */
  function Split(ss: seq<Slice>, k: nat): Option<(seq<Slice>, seq<Slice>)> {
    if ss == [] then
      if k == 0 then Some(([], [])) else None
    else if k < ss[0].len then
      if k == 0 then Some(([], ss))
      else Some(([Slice(ss[0].addr, k)], [Slice(ss[0].addr + k, ss[0].len - k)] + ss[1..]))
    else
      match Split(ss[1..], k - ss[0].len)
      case None => None
      case Some((front, back)) => Some(([ss[0]] + front, back))
  }

  // ---- the flat meaning of the three --------------------------------------

  /** `consume` moves the flat cursor by exactly n cells. */
  lemma {:induction false} CellsAdvance(ss: seq<Slice>, n: nat)
    requires n <= |Cells(ss)|
    ensures Cells(Advance(ss, n)) == Cells(ss)[n..]
    ensures NoEmpty(ss) ==> NoEmpty(Advance(ss, n))
  {
    if ss != [] {
      var c := Range(ss[0].addr, ss[0].len);
      if n < ss[0].len {
        assert Range(ss[0].addr + n, ss[0].len - n) == c[n..];
        assert Advance(ss, n)[1..] == ss[1..];
      } else {
        CellsAdvance(ss[1..], n - ss[0].len);
        assert Cells(ss)[n..] == Cells(ss[1..])[n - ss[0].len..];
      }
    }
  }

  /** Consuming everything leaves no slice, not even an empty one. */
  lemma {:induction false} AdvanceAll(ss: seq<Slice>)
    ensures Advance(ss, |Cells(ss)|) == []
  {
    if ss != [] {
      AdvanceAll(ss[1..]);
    }
  }

  lemma {:induction false} AdvanceAdvance(ss: seq<Slice>, a: nat, b: nat)
    requires a + b <= |Cells(ss)|
    ensures Advance(Advance(ss, a), b) == Advance(ss, a + b)
  {
    if ss != [] {
      if a < ss[0].len {
        var s := Advance(ss, a);
        assert s[1..] == ss[1..];
      } else {
        AdvanceAdvance(ss[1..], a - ss[0].len, b);
      }
    }
  }

  /** The selected slices are a prefix of the chain: the shortest one whose total
      reaches `count`, or the whole chain when none does. */
  lemma {:induction false} PickShortest(ss: seq<Slice>, count: nat)
    ensures |Pick(ss, count)| <= |ss| && Pick(ss, count) == ss[..|Pick(ss, count)|]
    ensures |Cells(Pick(ss, count))| >= Min(count, |Cells(ss)|)
    ensures |Cells(Pick(ss, count))| < count ==> Pick(ss, count) == ss
    ensures forall k :: 0 <= k < |Pick(ss, count)| ==> |Cells(ss[..k])| < count
  {
    if ss != [] && count != 0 {
      var rest := if count < ss[0].len then 0 else count - ss[0].len;
      PickShortest(ss[1..], rest);
      var p := Pick(ss, count);
      assert p[1..] == Pick(ss[1..], rest);
      forall k | 0 <= k < |p| ensures |Cells(ss[..k])| < count {
        if k > 0 {
          assert ss[..k][1..] == ss[1..][..k - 1];
          assert |Cells(ss[1..][..k - 1])| < rest;
        }
      }
      assert ss == [ss[0]] + ss[1..];
    }
  }

  /** The selection continues with the next slice. */
  lemma PickNext(ss: seq<Slice>, i: nat, count: nat, done: seq<Slice>)
    requires i < |ss| && count > 0
    ensures done + Pick(ss[i..], count)
         == done + [ss[i]] + Pick(ss[i + 1..], if count < ss[i].len then 0 else count - ss[i].len)
  {
    assert ss[i..][1..] == ss[i + 1..];
    var rest := Pick(ss[i + 1..], if count < ss[i].len then 0 else count - ss[i].len);
    assert done + ([ss[i]] + rest) == done + [ss[i]] + rest;
  }

  lemma PickCells(ss: seq<Slice>, count: nat)
    ensures |Cells(Pick(ss, count))| <= |Cells(ss)|
    ensures Cells(Pick(ss, count)) == Cells(ss)[..|Cells(Pick(ss, count))|]
  {
    PickShortest(ss, count);
    var k := |Pick(ss, count)|;
    assert ss == ss[..k] + ss[k..];
    CellsAppend(ss[..k], ss[k..]);
  }

  /** Selecting gathers exactly the first min(count, remaining) bytes if and only if
      `count` covers the chain or falls on a slice boundary. */
  lemma PickExact(ss: seq<Slice>, count: nat)
    ensures |Cells(Pick(ss, count))| == Min(count, |Cells(ss)|)
       <==> count >= |Cells(ss)| || exists k :: 0 <= k <= |ss| && |Cells(ss[..k])| == count
  {
    PickShortest(ss, count);
    PickCells(ss, count);
    var p := |Pick(ss, count)|;
    if count < |Cells(ss)| {
      if |Cells(Pick(ss, count))| == count {
        assert |Cells(ss[..p])| == count;
      }
      forall k | 0 <= k <= |ss| && |Cells(ss[..k])| == count
        ensures |Cells(ss[..p])| == count
      {
        assert ss[..k] == ss[..p] + ss[p..k];
        CellsAppend(ss[..p], ss[p..k]);
      }
    }
  }

  lemma {:induction false} SplitCells(ss: seq<Slice>, k: nat)
    ensures Split(ss, k).Some? <==> k <= |Cells(ss)|
    ensures Split(ss, k).Some? ==>
              var (front, back) := Split(ss, k).value;
              && Cells(front) == Cells(ss)[..k]
              && Cells(back) == Cells(ss)[k..]
              && (NoEmpty(ss) ==> NoEmpty(front) && NoEmpty(back))
  {
    hide NoEmpty;
    if ss == [] {
      NoEmptyNone();
    } else if k < ss[0].len {
      NoEmptyNone();
      SplitFirst(ss, k);
    } else {
      assert ss == [ss[0]] + ss[1..];
      CellsFirst(ss[0], ss[1..]);
      SplitCells(ss[1..], k - ss[0].len);
      match Split(ss[1..], k - ss[0].len)
      case None =>
      case Some((front, back)) => SplitLater(ss[0], ss[1..], k, front, back);
    }
  }

  lemma NoEmptyNone()
    ensures NoEmpty([]) && Cells([]) == []
  {
  }

  /** The cut falls behind the first slice. */
  lemma SplitLater(s: Slice, rest: seq<Slice>, k: nat, front: seq<Slice>, back: seq<Slice>)
    requires s.len <= k <= s.len + |Cells(rest)|
    requires Cells(front) == Cells(rest)[..k - s.len] && Cells(back) == Cells(rest)[k - s.len..]
    ensures Cells([s] + front) == Cells([s] + rest)[..k]
    ensures Cells(back) == Cells([s] + rest)[k..]
    ensures NoEmpty([s] + rest) && (NoEmpty(rest) ==> NoEmpty(front) && NoEmpty(back)) ==>
              NoEmpty([s] + front) && NoEmpty(back)
  {
    CellsFirst(s, front);
    CellsFirst(s, rest);
    hide Cells;
    if NoEmpty([s] + rest) {
      forall i | 0 <= i < |rest| ensures rest[i].len > 0 {
        assert ([s] + rest)[i + 1] == rest[i];
      }
      assert ([s] + rest)[0] == s;
    }
  }

  /** The cut falls inside the first slice. */
  lemma SplitFirst(ss: seq<Slice>, k: nat)
    requires ss != [] && k < ss[0].len
    ensures var front, back := [Slice(ss[0].addr, k)], [Slice(ss[0].addr + k, ss[0].len - k)] + ss[1..];
      && Cells(front) == Cells(ss)[..k] && Cells(back) == Cells(ss)[k..]
      && (NoEmpty(ss) ==> NoEmpty(back) && (k > 0 ==> NoEmpty(front)))
  {
    var c := Range(ss[0].addr, ss[0].len);
    var front, back := Slice(ss[0].addr, k), Slice(ss[0].addr + k, ss[0].len - k);
    assert Range(front.addr, front.len) == c[..k];
    assert Range(back.addr, back.len) == c[k..];
    CellsFirst(front, []);
    CellsFirst(back, ss[1..]);
    assert [front] + [] == [front];
  }

  lemma CellsFirst(s: Slice, rest: seq<Slice>)
    ensures Cells([s] + rest) == Range(s.addr, s.len) + Cells(rest)
  {
    assert ([s] + rest)[1..] == rest;
  }

  // ---- the mutable consumer -----------------------------------------------

  class DescriptorChainConsumer {
    var buffers: seq<Slice>
    var bytesConsumed: nat

    /** The byte counter can never overflow: `new` checked the total. */
    ghost predicate Valid()
      reads this
    {
      bytesConsumed + |Cells(buffers)| <= USIZE_MAX
    }

    constructor (buffers: seq<Slice>)
      requires |Cells(buffers)| <= USIZE_MAX
      ensures Valid() && this.buffers == buffers && bytesConsumed == 0
    {
      this.buffers := buffers;
      bytesConsumed := 0;
    }

    /** First half of `consume`: collect the slices passed to the closure. */
    method Select(count: nat) returns (bufs: seq<Slice>)
      ensures bufs == Pick(buffers, count)
    {
      var len := 0;
      bufs := [];
      var i := 0;
      assert buffers[0..] == buffers;
      while i < |buffers| && len < count
        invariant 0 <= i <= |buffers| && len <= count
        invariant Pick(buffers, count) == bufs + Pick(buffers[i..], count - len)
        decreases |buffers| - i
      {
        hide Pick;
        var vs := buffers[i];
        PickNext(buffers, i, count - len, bufs);
        bufs := bufs + [vs];
        var remain := count - len;
        if remain < vs.len {
          len := len + remain;
        } else {
          len := len + vs.len;
        }
        i := i + 1;
      }
    }

    /** Second half of `consume`: drop the n bytes the closure moved. */
    method Commit(n: nat)
      requires Valid() && n <= |Cells(buffers)|
      modifies this
      ensures Valid()
      ensures buffers == Advance(old(buffers), n)
      ensures Cells(buffers) == old(Cells(buffers))[n..]
      ensures bytesConsumed == old(bytesConsumed) + n
      ensures bytesConsumed + |Cells(buffers)| == old(bytesConsumed + |Cells(buffers)|)
    {
      CellsAdvance(buffers, n);
      assert bytesConsumed + n <= USIZE_MAX;  // the source's checked_add succeeds
      var total := bytesConsumed + n;
      var remain: nat := n;
      while buffers != []
        invariant bytesConsumed == old(bytesConsumed)
        invariant Advance(old(buffers), n) == Advance(buffers, remain)
        decreases |buffers|
      {
        var vs := buffers[0];
        buffers := buffers[1..];
        if remain < vs.len {
          buffers := [Slice(vs.addr + remain, vs.len - remain)] + buffers;
          break;
        }
        remain := remain - vs.len;
      }
      bytesConsumed := total;
    }

    /** Keep the first `offset` bytes and return a new consumer for the rest. */
    method SplitAt(offset: nat) returns (r: Option<DescriptorChainConsumer>)
      requires Valid()
      modifies this
      ensures Valid() && bytesConsumed == old(bytesConsumed)
      ensures r.Some? <==> offset <= |old(Cells(buffers))|
      ensures r.None? ==> buffers == old(buffers)
      ensures r.Some? ==>
        && fresh(r.value) && r.value.Valid() && r.value.bytesConsumed == 0
        && Split(old(buffers), offset) == Some((buffers, r.value.buffers))
        && Cells(buffers) == old(Cells(buffers))[..offset]
        && Cells(r.value.buffers) == old(Cells(buffers))[offset..]
    {
      hide Cells;
      SplitCells(buffers, offset);
      var remain: nat := offset;
      var at := 0;
      PrependNothing(buffers, offset);
      while at < |buffers| && remain >= buffers[at].len
        invariant 0 <= at <= |buffers| && buffers == old(buffers)
        invariant bytesConsumed == old(bytesConsumed)
        invariant Split(buffers, offset) == Prepend(buffers[..at], Split(buffers[at..], remain))
        decreases |buffers| - at
      {
        PrependStep(buffers, at, remain);
        remain := remain - buffers[at].len;
        at := at + 1;
      }
      if at < |buffers| {
        var other := buffers[at..];
        buffers := buffers[..at];
        if remain > 0 {
          var front := other[0];
          other := other[1..];
          buffers := buffers + [Slice(front.addr, remain)];
          other := [Slice(front.addr + remain, front.len - remain)] + other;
        }
        assert old(buffers)[..at] + [] == old(buffers)[..at];
        assert Split(old(buffers), offset) == Some((buffers, other));
        var tail := new DescriptorChainConsumer(other);
        r := Some(tail);
      } else if remain == 0 {
        assert buffers[at..] == [] && buffers[..at] + [] == buffers;
        assert Split(old(buffers), offset) == Some((buffers, []));
        var tail := new DescriptorChainConsumer([]);
        r := Some(tail);
      } else {
        r := None;
      }
    }
  }

  ghost function Prepend(done: seq<Slice>, cut: Option<(seq<Slice>, seq<Slice>)>)
    : Option<(seq<Slice>, seq<Slice>)>
  {
    match cut
    case None => None
    case Some((front, back)) => Some((done + front, back))
  }

  lemma PrependNothing(ss: seq<Slice>, k: nat)
    ensures Prepend(ss[..0], Split(ss[0..], k)) == Split(ss, k)
  {
    assert ss[0..] == ss;
    match Split(ss, k)
    case None =>
    case Some((front, _)) => assert ss[..0] + front == front;
  }

  lemma PrependStep(ss: seq<Slice>, at: nat, remain: nat)
    requires at < |ss| && remain >= ss[at].len
    ensures Prepend(ss[..at], Split(ss[at..], remain))
         == Prepend(ss[..at + 1], Split(ss[at + 1..], remain - ss[at].len))
  {
    assert ss[at..][1..] == ss[at + 1..];
    match Split(ss[at + 1..], remain - ss[at].len)
    case None =>
    case Some((front, _)) =>
      assert ss[..at] + ([ss[at]] + front) == ss[..at + 1] + front;
  }
}
