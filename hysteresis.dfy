/**
 * The inhibit/uninhibit decision of one tick (main.go), on its own: the
 * cooldown counter and whether the sleep/shutdown inhibitor lease is held.
 * A tick is "high" when its traffic exceeded the threshold.
 */
module Hysteresis {
  import opened UInt64

  /** The persistent state across ticks: the cooldown counter and whether a lease is held. */
  datatype Machine = Machine(counter: U64, held: bool)

  /** What a tick does to the lease. */
  datatype Action = Keep | Acquire | Release

  /** The state after a tick and the lease action it issues. */
  datatype Step = Step(next: Machine, action: Action)

  /** The state the daemon starts in: counter 0, no lease. */
  const Initial: Machine := Machine(0, false)

  /** An uninhibited daemon has no cooldown pending. */
  predicate Inv(m: Machine) {
    !m.held ==> m.counter == 0
  }

  /**
   * One tick. A high tick restarts the cooldown at wait and acquires a lease
   * unless one is held. A low tick counts the cooldown down; once it is 0, a
   * held lease is released.
   */
  function Decide(m: Machine, high: bool, wait: U64): (s: Step)
    ensures s.action == Acquire <==> high && !m.held
    ensures s.action == Release <==> !high && m.counter == 0 && m.held
    ensures s.next.held <==> high || (m.held && s.action != Release)
    ensures high ==> s.next.counter == wait
    ensures !high && 0 < m.counter ==> s.next == Machine(m.counter - 1, m.held)
    ensures !high && m.counter == 0 ==> s.next == Initial
    ensures Inv(m) ==> Inv(s.next)
  {
    if high then Step(Machine(wait, true), if m.held then Keep else Acquire)
    else if 0 < m.counter then Step(Machine(m.counter - 1, m.held), Keep)
    else if m.held then Step(Initial, Release)
    else Step(m, Keep)
  }

  /** The state after a sequence of ticks. */
  function Run(m: Machine, ticks: seq<bool>, wait: U64): Machine
    decreases |ticks|
  {
    if ticks == [] then m else Run(Decide(m, ticks[0], wait).next, ticks[1..], wait)
  }

  /** The lease actions a sequence of ticks issues, one per tick. */
  function Actions(m: Machine, ticks: seq<bool>, wait: U64): (acts: seq<Action>)
    ensures |acts| == |ticks|
    decreases |ticks|
  {
    if ticks == [] then []
    else
      var s := Decide(m, ticks[0], wait);
      [s.action] + Actions(s.next, ticks[1..], wait)
  }

  function Count(acts: seq<Action>, a: Action): nat {
    if acts == [] then 0 else (if acts[0] == a then 1 else 0) + Count(acts[1..], a)
  }

  function Quiet(n: nat): seq<bool> {
    if n == 0 then [] else [false] + Quiet(n - 1)
  }

  function Busy(n: nat): seq<bool> {
    if n == 0 then [] else [true] + Busy(n - 1)
  }

  function Keeps(n: nat): seq<Action> {
    if n == 0 then [] else [Keep] + Keeps(n - 1)
  }

  /** "Not held implies counter 0" holds after any ticks from any state where it holds, the initial state among them. */
  lemma {:induction false} RunKeepsInv(m: Machine, ticks: seq<bool>, wait: U64)
    requires Inv(m)
    ensures Inv(Run(m, ticks, wait))
    decreases |ticks|
  {
    if ticks != [] {
      RunKeepsInv(Decide(m, ticks[0], wait).next, ticks[1..], wait);
    }
  }

  /** Running two stretches of ticks one after the other is running them together. */
  lemma {:induction false} RunSplit(m: Machine, t1: seq<bool>, t2: seq<bool>, wait: U64)
    ensures Run(m, t1 + t2, wait) == Run(Run(m, t1, wait), t2, wait)
    ensures Actions(m, t1 + t2, wait) == Actions(m, t1, wait) + Actions(Run(m, t1, wait), t2, wait)
    decreases |t1|
  {
    if t1 == [] {
      assert t1 + t2 == t2;
    } else {
      var next := Decide(m, t1[0], wait).next;
      assert (t1 + t2)[0] == t1[0];
      assert (t1 + t2)[1..] == t1[1..] + t2;
      RunSplit(next, t1[1..], t2, wait);
    }
  }

  /**
   * Leases balance: every lease acquired is released once, except the one
   * still held at the end. From the initial state, a held lease means
   * exactly one acquire is outstanding.
   */
  lemma {:induction false} LeaseBalance(m: Machine, ticks: seq<bool>, wait: U64)
    ensures Count(Actions(m, ticks, wait), Acquire) + (if m.held then 1 else 0) ==
      Count(Actions(m, ticks, wait), Release) + (if Run(m, ticks, wait).held then 1 else 0)
    decreases |ticks|
  {
    if ticks != [] {
      var s := Decide(m, ticks[0], wait);
      var acts := Actions(m, ticks, wait);
      assert acts[0] == s.action && acts[1..] == Actions(s.next, ticks[1..], wait);
      LeaseBalance(s.next, ticks[1..], wait);
    }
  }

  /** A lease is never acquired twice without a release in between, nor released when none is held. */
  lemma LeaseAlternates(ticks: seq<bool>, wait: U64)
    ensures Count(Actions(Initial, ticks, wait), Release) <= Count(Actions(Initial, ticks, wait), Acquire) <=
      Count(Actions(Initial, ticks, wait), Release) + 1
  {
    LeaseBalance(Initial, ticks, wait);
  }

  /** Low ticks count the cooldown down by one each, with the lease untouched. */
  lemma {:induction false} Cooldown(m: Machine, n: nat, wait: U64)
    requires n <= m.counter
    ensures Run(m, Quiet(n), wait) == Machine(m.counter - n, m.held)
    ensures Actions(m, Quiet(n), wait) == Keeps(n)
    decreases n
  {
    if n > 0 {
      Cooldown(Machine(m.counter - 1, m.held), n - 1, wait);
    }
  }

  /**
   * After a high tick, the lease is still held through wait low ticks and is
   * released on the (wait+1)-th: the counter reaches 0 first, and the release
   * fires on a low tick that finds it at 0.
   */
  lemma ReleaseOnTickAfterWait(m: Machine, wait: U64)
    ensures Run(m, [true] + Quiet(wait), wait) == Machine(0, true)
    ensures Actions(m, [true] + Quiet(wait + 1), wait) ==
      [if m.held then Keep else Acquire] + Keeps(wait) + [Release]
    ensures Run(m, [true] + Quiet(wait + 1), wait) == Initial
  {
    var busy := Machine(wait, true);
    Cooldown(busy, wait, wait);
    assert ([true] + Quiet(wait))[1..] == Quiet(wait);
    assert ([true] + Quiet(wait + 1))[1..] == Quiet(wait + 1);
    assert Quiet(wait + 1) == Quiet(wait) + [false] by {
      QuietSnoc(wait);
    }
    RunSplit(busy, Quiet(wait), [false], wait);
  }

  /** A run of low ticks ends with one more low tick. */
  lemma {:induction false} QuietSnoc(n: nat)
    ensures Quiet(n + 1) == Quiet(n) + [false]
  {
    if n > 0 {
      QuietSnoc(n - 1);
    }
  }

  /** While the lease is held, further high ticks issue no acquire and keep the cooldown at wait. */
  lemma {:induction false} BusyWhileHeld(m: Machine, n: nat, wait: U64)
    requires m.held
    ensures Actions(m, Busy(n), wait) == Keeps(n)
    ensures n > 0 ==> Run(m, Busy(n), wait) == Machine(wait, true)
    decreases n
  {
    if n > 0 {
      BusyWhileHeld(Machine(wait, true), n - 1, wait);
    }
  }

  /** An idle daemon stays idle on low ticks and never releases. */
  lemma {:induction false} QuietWhenIdle(n: nat, wait: U64)
    ensures Run(Initial, Quiet(n), wait) == Initial
    ensures Actions(Initial, Quiet(n), wait) == Keeps(n)
  {
    if n > 0 {
      QuietWhenIdle(n - 1, wait);
    }
  }

  /** With wait 3, the lease taken on tick 1 is still held after tick 4 and released on tick 5. */
  lemma WaitThreeExample()
    ensures Run(Initial, [true, false, false, false], 3).held
    ensures Actions(Initial, [true, false, false, false, false], 3) == [Acquire, Keep, Keep, Keep, Release]
  {
    ReleaseOnTickAfterWait(Initial, 3);
    assert [true] + Quiet(3) == [true, false, false, false];
    assert [true] + Quiet(4) == [true, false, false, false, false];
  }
}
