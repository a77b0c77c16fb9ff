/**
 * The daemon's main loop (main.go): the state it keeps between ticks, one
 * tick of sampling and deciding, and the deferred clean-up that runs on every
 * way out of the loop (a signal, a fatal error, or a panic while parsing).
 *
 * Reading /proc/net/dev is a parameter of each tick: None when the file
 * cannot be opened, else the text read. Each lease call to login1 (Inhibit
 * or Close) is a parameter too: whether it succeeds. A tick makes at most one
 * such call.
 */
module Daemon {
  import opened Wrappers
  import opened UInt64
  import opened NetDev
  import opened Sampler
  import opened Hysteresis

  /** Why the loop ended with an error. */
  datatype Fault = ReadFailed | Malformed(failure: ParseFailure) | AcquireFailed | ReleaseFailed

  /** Readiness and status notifications sent to systemd. */
  datatype Notice = Ready | Inhibited | Uninhibited | Stopping

  /** The status notice a lease action sends. */
  function Announce(a: Action): seq<Notice> {
    match a
    case Acquire => [Inhibited]
    case Release => [Uninhibited]
    case Keep => []
  }

  function Indicator(b: bool): nat {
    if b then 1 else 0
  }

  /** The snapshot a reading yields: the parsed table, or why there is none. */
  function Sample(reading: Option<string>): (r: Result<Snapshot, Fault>)
    ensures reading.None? ==> r == Err(ReadFailed)
    ensures reading.Some? ==>
      (r.Ok? <==> forall i :: 0 <= i < |DataLines(reading.value)| ==> ParseLine(DataLines(reading.value)[i]).Ok?)
    ensures r.Ok? ==> reading.Some? && Table(DataLines(reading.value)) == Ok(r.value)
    ensures reading.Some? && r.Err? ==>
      (exists i :: 0 <= i < |DataLines(reading.value)| && ParseLine(DataLines(reading.value)[i]).Err? &&
        r.error == Malformed(ParseLine(DataLines(reading.value)[i]).error) &&
        forall j :: 0 <= j < i ==> ParseLine(DataLines(reading.value)[j]).Ok?)
  {
    match reading
    case None => Err(ReadFailed)
    case Some(content) =>
      TableFails(DataLines(content));
      match Table(DataLines(content))
      case Ok(stats) => Ok(stats)
      case Err(e) => Err(Malformed(e))
  }

  class Daemon {
    /** Traffic threshold in KB/s. */
    const threshold: U64
    /** Seconds to wait before uninhibiting. */
    const wait: U64

    var prevStats: Snapshot
    var counter: U64
    /** Whether the inhibitor lease handle is open (inhibit != nil). */
    var held: bool
    var fault: Option<Fault>
    var stopped: bool
    /** Notifications sent to systemd, oldest first. */
    var notices: seq<Notice>
    /** Successful Inhibit calls. */
    var acquired: nat
    /** Close calls on lease handles, successful or not. */
    var closes: nat

    /**
     * While running, an uninhibited daemon has no cooldown pending and the
     * last status sent matches the lease. Every lease acquired is closed once,
     * except one still open; a failed release leaves its handle open, so the
     * deferred clean-up closes it a second time. Once stopped, no lease is
     * open and Stopping was the last notice.
     */
    predicate Valid()
      reads this
    {
      && (fault.Some? ==> stopped)
      && (!stopped ==> Inv(Machine(counter, held)))
      && (stopped ==> !held)
      && closes + Indicator(held) == acquired + Indicator(fault == Some(ReleaseFailed))
      && |notices| >= 2 && notices[0] == Ready
      && notices[|notices| - 1] == (if stopped then Stopping else if held then Inhibited else Uninhibited)
    }

    /** Start-up after the first reading: counter 0, no lease, Ready then Uninhibited sent. */
    constructor(threshold: U64, wait: U64, initial: Snapshot)
      ensures this.threshold == threshold && this.wait == wait
      ensures prevStats == initial && counter == 0 && !held
      ensures fault == None && !stopped
      ensures notices == [Ready, Uninhibited] && acquired == 0 && closes == 0
      ensures Valid()
    {
      this.threshold := threshold;
      this.wait := wait;
      prevStats := initial;
      counter := 0;
      held := false;
      fault := None;
      stopped := false;
      notices := [Ready, Uninhibited];
      acquired := 0;
      closes := 0;
    }

    /**
     * The deferred calls, last registered first: Stopping is sent, then an
     * open lease handle is closed.
     */
    method Exit()
      requires !stopped
      modifies this
      ensures stopped && !held
      ensures notices == old(notices) + [Stopping]
      ensures closes == old(closes) + Indicator(old(held))
      ensures prevStats == old(prevStats) && counter == old(counter) && fault == old(fault) && acquired == old(acquired)
    {
      notices := notices + [Stopping];
      if held {
        closes := closes + 1;
        held := false;
      }
      stopped := true;
    }

    /** SIGINT or SIGTERM: the loop returns and the deferred calls run. */
    method Shutdown()
      requires Valid() && !stopped
      modifies this
      ensures Valid() && stopped && fault == None
      ensures closes == acquired
      ensures notices == old(notices) + [Stopping]
      ensures prevStats == old(prevStats) && counter == old(counter) && acquired == old(acquired)
    {
      Exit();
    }

    /**
     * The hysteresis branch of a tick, given whether the traffic was high:
     * the counter and lease are updated as Decide says, with the status
     * notice for a lease change. A failed Inhibit or Close ends the loop.
     */
    method Transition(high: bool, leaseOk: bool)
      requires Valid() && !stopped
      modifies this
      ensures Valid()
      ensures prevStats == old(prevStats)
      ensures
        var step := Decide(Machine(old(counter), old(held)), high, wait);
        if !leaseOk && step.action == Acquire then
          stopped && fault == Some(AcquireFailed) && counter == wait && !held &&
          acquired == old(acquired) && closes == old(closes) && notices == old(notices) + [Stopping]
        else if !leaseOk && step.action == Release then
          stopped && fault == Some(ReleaseFailed) && counter == 0 && !held &&
          acquired == old(acquired) && closes == old(closes) + 2 && notices == old(notices) + [Stopping]
        else
          !stopped && fault == None && Machine(counter, held) == step.next &&
          acquired == old(acquired) + Indicator(step.action == Acquire) &&
          closes == old(closes) + Indicator(step.action == Release) &&
          notices == old(notices) + Announce(step.action)
    {
      if high {
        counter := wait;
        if !held {
          if !leaseOk {
            fault := Some(AcquireFailed);
            Exit();
            return;
          }
          held := true;
          acquired := acquired + 1;
          notices := notices + [Inhibited];
        }
      } else if 0 < counter {
        counter := counter - 1;
      } else if held {
        closes := closes + 1;
        if !leaseOk {
          fault := Some(ReleaseFailed);
          Exit();
          return;
        }
        held := false;
        notices := notices + [Uninhibited];
      }
    }

    /**
     * A tick with its snapshot in hand: sum the byte deltas against the
     * previous snapshot, test the threshold, decide, and keep the snapshot
     * for the next tick unless the decision failed.
     */
    method Apply(cur: Snapshot, leaseOk: bool)
      requires Valid() && !stopped
      modifies this
      ensures Valid()
      ensures
        var step := Decide(Machine(old(counter), old(held)), Exceeds(threshold, Traffic(old(prevStats), cur)), wait);
        if !leaseOk && step.action == Acquire then
          stopped && fault == Some(AcquireFailed) && prevStats == old(prevStats) && counter == wait && !held &&
          acquired == old(acquired) && closes == old(closes) && notices == old(notices) + [Stopping]
        else if !leaseOk && step.action == Release then
          stopped && fault == Some(ReleaseFailed) && prevStats == old(prevStats) && counter == 0 && !held &&
          acquired == old(acquired) && closes == old(closes) + 2 && notices == old(notices) + [Stopping]
        else
          !stopped && fault == None && prevStats == cur && Machine(counter, held) == step.next &&
          acquired == old(acquired) + Indicator(step.action == Acquire) &&
          closes == old(closes) + Indicator(step.action == Release) &&
          notices == old(notices) + Announce(step.action)
    {
      var rxBytes, txBytes := Aggregate(prevStats, cur);
      Transition(Exceeds(threshold, Add(rxBytes, txBytes)), leaseOk);
      if !stopped {
        prevStats := cur;
      }
    }

    /**
     * One tick: read and parse the table, then apply it. A read error or a
     * malformed table ends the loop before the previous snapshot is replaced.
     */
    method Tick(reading: Option<string>, leaseOk: bool)
      requires Valid() && !stopped
      modifies this
      ensures Valid()
      ensures Sample(reading).Err? ==>
        stopped && fault == Some(Sample(reading).error) && prevStats == old(prevStats) && counter == old(counter) &&
        !held && acquired == old(acquired) && closes == old(closes) + Indicator(old(held)) &&
        notices == old(notices) + [Stopping]
      ensures Sample(reading).Ok? ==>
        var step := Decide(Machine(old(counter), old(held)), Exceeds(threshold, Traffic(old(prevStats), Sample(reading).value)), wait);
        if !leaseOk && step.action == Acquire then
          stopped && fault == Some(AcquireFailed) && prevStats == old(prevStats) && counter == wait && !held &&
          acquired == old(acquired) && closes == old(closes) && notices == old(notices) + [Stopping]
        else if !leaseOk && step.action == Release then
          stopped && fault == Some(ReleaseFailed) && prevStats == old(prevStats) && counter == 0 && !held &&
          acquired == old(acquired) && closes == old(closes) + 2 && notices == old(notices) + [Stopping]
        else
          !stopped && fault == None && prevStats == Sample(reading).value && Machine(counter, held) == step.next &&
          acquired == old(acquired) + Indicator(step.action == Acquire) &&
          closes == old(closes) + Indicator(step.action == Release) &&
          notices == old(notices) + Announce(step.action)
    {
      if reading.None? {
        fault := Some(ReadFailed);
        Exit();
        return;
      }
      var parsed := ReadNetDev(reading.value);
      if parsed.Err? {
        fault := Some(Malformed(parsed.error));
        Exit();
        return;
      }
      Apply(parsed.value, leaseOk);
    }
  }

  /**
   * Start-up: the first reading is taken before anything else; if it fails
   * or does not parse the daemon never starts.
   */
  method Start(threshold: U64, wait: U64, reading: Option<string>) returns (r: Result<Daemon, Fault>)
    ensures Sample(reading).Err? ==> r == Err(Sample(reading).error)
    ensures Sample(reading).Ok? ==>
      (r.Ok? && fresh(r.value) && r.value.Valid() &&
        r.value.prevStats == Sample(reading).value && r.value.counter == 0 && !r.value.held &&
        r.value.threshold == threshold && r.value.wait == wait &&
        !r.value.stopped && r.value.fault == None && r.value.notices == [Ready, Uninhibited] &&
        r.value.acquired == 0 && r.value.closes == 0)
  {
    if reading.None? {
      return Err(ReadFailed);
    }
    var parsed := ReadNetDev(reading.value);
    if parsed.Err? {
      return Err(Malformed(parsed.error));
    }
    var d := new Daemon(threshold, wait, parsed.value);
    return Ok(d);
  }
}
