/** The notification protocol of `handle_event_serial` as interleaved steps of the
    driver, which adds chains and kicks while notifications are enabled, and of the
    device: disable, drain, serve, re-enable, check again.  `enable_notification` is
    split into arming and checking, so that the driver can act in between
    (section 2.7.10 of Virtio 1.2). */
module Queue {
  /** Where the device is: Check stands for the test of what enable_notification
      returned, Dead for a panic while serving. */
  datatype Pc = Idle | Disable | Drain | Serving | Rearm | Check | Dead

  /** `used` pairs each chain served with whether the ring accepted its used entry. */
  datatype Ring = Ring(
    eventIdx: bool,
    added: seq<nat>,
    avail: seq<nat>,
    batch: seq<nat>,
    used: seq<(nat, bool)>,
    enabled: bool,
    kick: bool,
    pc: Pc)

  datatype Step =
    | Add(chain: nat)
    | Spurious             // an event without a new chain
    | Device(served: bool, accepted: bool)

  function Start(eventIdx: bool, kick: bool): Ring {
    Ring(eventIdx, [], [], [], [], true, kick, Idle)
  }

  function DeviceStep(s: Ring, served: bool, accepted: bool): Ring {
    match s.pc
    case Idle =>
      if s.kick then s.(kick := false, pc := if s.eventIdx then Disable else Drain) else s
    case Disable => s.(enabled := false, pc := Drain)
    case Drain => s.(batch := s.avail, avail := [], pc := Serving)
    case Serving =>
      if s.batch == [] then s.(pc := if s.eventIdx then Rearm else Idle)
      else if !served then s.(pc := Dead)
      else s.(used := s.used + [(s.batch[0], accepted)], batch := s.batch[1..])
    case Rearm => s.(enabled := true, pc := Check)
    case Check => s.(pc := if s.avail != [] then Disable else Idle)
    case Dead => s
  }

  function Next(s: Ring, step: Step): Ring {
    match step
    case Add(c) => s.(added := s.added + [c], avail := s.avail + [c], kick := s.kick || s.enabled)
    case Spurious => s.(kick := true)
    case Device(served, accepted) => DeviceStep(s, served, accepted)
  }

  function Execute(s: Ring, steps: seq<Step>): Ring
    decreases |steps|
  {
    if steps == [] then s else Execute(Next(s, steps[0]), steps[1..])
  }

  function Heads(used: seq<(nat, bool)>): (r: seq<nat>)
    ensures |r| == |used|
  {
    seq(|used|, i requires 0 <= i < |used| => used[i].0)
  }

  /** Chains are served in the order they were added, none twice, none skipped; while
      the device sleeps, an unserved chain has an event pending. */
  ghost predicate Inv(s: Ring) {
    && s.added == Heads(s.used) + s.batch + s.avail
    && (s.batch != [] ==> s.pc == Serving || s.pc == Dead)
    && (s.pc == Idle || s.pc == Check || !s.eventIdx ==> s.enabled)
    && (s.avail != [] ==> s.kick || s.pc == Drain || (s.eventIdx && s.pc != Idle) || s.pc == Dead)
    && (!s.eventIdx ==> s.pc == Idle || s.pc == Drain || s.pc == Serving || s.pc == Dead)
  }

  lemma ServeInv(s: Ring, accepted: bool)
    requires Inv(s) && s.pc == Serving && s.batch != []
    ensures Inv(DeviceStep(s, true, accepted))
  {
    var s' := DeviceStep(s, true, accepted);
    assert Heads(s'.used) == Heads(s.used) + [s.batch[0]];
    assert [s.batch[0]] + s'.batch == s.batch;
  }

  lemma DrainInv(s: Ring)
    requires Inv(s) && s.pc == Drain
    ensures Inv(DeviceStep(s, true, true))
  {
  }

  lemma NextInv(s: Ring, step: Step)
    requires Inv(s)
    ensures Inv(Next(s, step))
  {
    match step
    case Add(c) => assert s.added + [c] == Heads(s.used) + s.batch + (s.avail + [c]);
    case Spurious =>
    case Device(served, accepted) =>
      hide Heads;
      if s.pc == Serving && s.batch != [] && served {
        ServeInv(s, accepted);
      } else if s.pc == Drain {
        DrainInv(s);
      }
  }

  lemma {:induction false} ExecuteInv(s: Ring, steps: seq<Step>)
    requires Inv(s)
    ensures Inv(Execute(s, steps))
    decreases |steps|
  {
    if steps != [] {
      NextInv(s, steps[0]);
      ExecuteInv(Next(s, steps[0]), steps[1..]);
    }
  }

  /** No interleaving of driver and device leaves a chain unprocessed when the device
      sleeps with no event pending; at every moment the chains served are a prefix of
      the chains added, in order. */
  lemma NoLostChain(eventIdx: bool, kick: bool, steps: seq<Step>)
    ensures var s := Execute(Start(eventIdx, kick), steps);
      && (s.pc == Idle && !s.kick ==> Heads(s.used) == s.added)
      && |s.used| <= |s.added| && Heads(s.used) == s.added[..|s.used|]
  {
    assert Inv(Start(eventIdx, kick));
    ExecuteInv(Start(eventIdx, kick), steps);
  }

  /** Chains the ring refused a used entry for are the only ones not handed back. */
  function Returned(used: seq<(nat, bool)>): seq<nat> {
    if used == [] then []
    else Returned(used[..|used| - 1]) + (if used[|used| - 1].1 then [used[|used| - 1].0] else [])
  }

  lemma {:induction false} AllReturned(used: seq<(nat, bool)>)
    ensures (forall i :: 0 <= i < |used| ==> used[i].1) <==> |Returned(used)| == |used|
    ensures |Returned(used)| <= |used|
    ensures |Returned(used)| == |used| ==> Returned(used) == Heads(used)
  {
    if used != [] {
      var n := |used| - 1;
      AllReturned(used[..n]);
      assert Heads(used) == Heads(used[..n]) + [used[n].0];
    }
  }

  // ---- progress -----------------------------------------------------------

  function Rank(s: Ring): nat {
    match s.pc
    case Idle => 0
    case Dead => 0
    case Disable => 5
    case Drain => 4
    case Serving => if s.avail != [] then 8 else 3
    case Rearm => if s.avail != [] then 7 else 2
    case Check => if s.avail != [] then 6 else 1
  }

  /** The device left to itself, serving every chain, until it sleeps. */
  function Settle(s: Ring, accepts: nat -> bool): Ring
    requires Inv(s) && s.pc != Dead
    decreases |s.avail|, if s.kick then 1 else 0, Rank(s), |s.batch|
  {
    if s.pc == Idle && !s.kick then s
    else
      var accepted := s.batch != [] && accepts(s.batch[0]);
      NextInv(s, Device(true, accepted));
      Settle(DeviceStep(s, true, accepted), accepts)
  }

  /** From every reachable state, if the driver stops adding and no handler fails, the
      device comes to rest with every chain served, in order, and the ring re-armed. */
  lemma {:induction false} SettlesServed(s: Ring, accepts: nat -> bool)
    requires Inv(s) && s.pc != Dead
    ensures var end := Settle(s, accepts);
      && end.pc == Idle && !end.kick && end.enabled
      && end.added == s.added && Heads(end.used) == s.added
    decreases |s.avail|, if s.kick then 1 else 0, Rank(s), |s.batch|
  {
    if !(s.pc == Idle && !s.kick) {
      var accepted := s.batch != [] && accepts(s.batch[0]);
      NextInv(s, Device(true, accepted));
      SettlesServed(DeviceStep(s, true, accepted), accepts);
    }
  }

  // ---- why both the order and the second check matter ---------------------

  /** The loop with the check skipped: re-arm and sleep. */
  function Careless(s: Ring): Ring
  {
    if s.pc == Check then s.(pc := Idle) else DeviceStep(s, true, true)
  }

  /** A driver step between drain and re-arm is lost without the check. */
  lemma CheckIsNeeded()
    ensures var s0 := Execute(Start(true, false), [Add(1), Device(true, true), Device(true, true), Device(true, true)]);
            var s1 := Next(s0, Add(2));
            var s2 := Careless(Careless(Careless(Careless(s1))));
      s2.pc == Idle && !s2.kick && s2.avail == [2]
  {
    var s := Start(true, false);
    var a := Next(s, Add(1));
    var b := Next(a, Device(true, true));
    var c := Next(b, Device(true, true));
    var d := Next(c, Device(true, true));
    var steps := [Add(1), Device(true, true), Device(true, true), Device(true, true)];
    assert steps[1..][1..][1..][1..] == [];
    assert Execute(s, steps) == Execute(a, steps[1..]) == Execute(b, steps[1..][1..])
        == Execute(c, steps[1..][1..][1..]) == Execute(d, []) == d;
    assert d.avail == [] && d.batch == [1] && d.pc == Serving;
  }
}
