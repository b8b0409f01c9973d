/** Device discovery and the timer that ends it. */
module Discovery {
  import opened Prelude

  const INT32_MAX: int := 0x7FFF_FFFF

  datatype ScanCall = StartScan | StopScan

  /** `TimerFires(k)`: the `k`-th of the schedules pending. */
  datatype Event = Start(timeout: int, adapters: nat) | Stop | TimerFires(k: nat)

  /** The running flag, the schedules of the timer that are pending, with their
      delays in milliseconds, and the calls made to the platform so far. */
  datatype Scan = Scan(running: bool, timers: seq<int>, calls: seq<ScanCall>)

  const IDLE := Scan(false, [], [])

  /** A stop while running revokes the timer. */
  function Stopped(s: Scan): Scan {
    if s.running then Scan(false, [], s.calls + [StopScan]) else s
  }

  /** A start while running, or without an adapter, does nothing; a start without
      a positive timeout stops at once; any other revokes and schedules the timer. */
  function Started(s: Scan, timeout: int, adapters: nat): Scan {
    if s.running || adapters == 0 then s
    else if timeout <= 0 then Stopped(s.(running := true, calls := s.calls + [StartScan]))
    else Scan(true, [timeout * 1000], s.calls + [StartScan])
  }

  function Without(timers: seq<int>, k: nat): seq<int>
    requires k < |timers|
  {
    timers[..k] + timers[k + 1..]
  }

  /** A schedule fires only while pending, and is then spent. */
  function React(s: Scan, e: Event): Scan {
    match e
    case Start(timeout, adapters) => Started(s, timeout, adapters)
    case Stop => Stopped(s)
    case TimerFires(k) => if k < |s.timers| then Stopped(s.(timers := Without(s.timers, k))) else s
  }

  // ---------- the plugin's form ----------

  /** The discovery part of the plugin; platform calls may fail, which is only
      logged. The timer queue keeps every schedule until it fires or is revoked. */
  class DiscoveryControl {
    var discoveryRunning: bool
    var timers: seq<int> // schedules pending, with their delays in milliseconds
    var calls: seq<ScanCall>

    ghost function State(): Scan
      reads this
    {
      Scan(discoveryRunning, timers, calls)
    }

    constructor ()
      ensures State() == IDLE
    {
      discoveryRunning, timers, calls := false, [], [];
    }

    method StartDeviceDiscovery(timeout: int, adapters: nat) returns (available: bool)
      modifies this
      ensures State() == Started(old(State()), timeout, adapters)
      ensures available <==> old(discoveryRunning) || adapters > 0
    {
      available := true;
      if !discoveryRunning {
        if adapters > 0 {
          calls := calls + [StartScan];
          discoveryRunning := true;
          if timeout <= 0 {
            var stopped := StopDeviceDiscovery();
          } else {
            StartDiscoveryTimer(timeout * 1000);
          }
        } else {
          available := false;
        }
      }
    }

    method StopDeviceDiscovery() returns (stopped: bool)
      modifies this
      ensures State() == Stopped(old(State()))
      ensures stopped ==> old(discoveryRunning)
    {
      stopped := false;
      if discoveryRunning {
        StopDiscoveryTimer();
        stopped := *;
        calls := calls + [StopScan];
        discoveryRunning := false;
      }
    }

    method StartDiscoveryTimer(msec: int)
      modifies this`timers
      ensures timers == [msec]
    {
      StopDiscoveryTimer();
      Schedule(msec);
    }

    method StopDiscoveryTimer()
      modifies this`timers
      ensures timers == []
    {
      Revoke();
    }

    /** The queue's own operations: one more schedule, and none left. */
    method Schedule(msec: int)
      modifies this`timers
      ensures timers == old(timers) + [msec]
    {
      timers := timers + [msec];
    }

    method Revoke()
      modifies this`timers
      ensures timers == []
    {
      timers := [];
    }

    method OnDiscoveryTimer(k: nat)
      requires k < |timers|
      modifies this
      ensures State() == React(old(State()), TimerFires(k))
    {
      timers := Without(timers, k);
      var stopped := StopDeviceDiscovery();
    }
  }

  // ---------- laws ----------

  function ReactAll(s: Scan, events: seq<Event>): Scan {
    if events == [] then s else React(ReactAll(s, events[..|events| - 1]), events[|events| - 1])
  }

  /** Starts and stops strictly alternate, beginning with a start. */
  predicate Alternating(calls: seq<ScanCall>) {
    forall k :: 0 <= k < |calls| ==> calls[k] == if k % 2 == 0 then StartScan else StopScan
  }

  /** In every sequence of starts, stops and timer events: one schedule is pending
      while a scan runs and none otherwise, the platform sees strictly alternating
      calls, and a scan runs exactly while a start has not been answered by a stop. */
  lemma {:induction false} DiscoveryInvariant(events: seq<Event>)
    ensures var s := ReactAll(IDLE, events);
      && |s.timers| == (if s.running then 1 else 0)
      && Alternating(s.calls)
      && (s.running <==> |s.calls| % 2 == 1)
  {
    if events != [] {
      DiscoveryInvariant(events[..|events| - 1]);
    }
  }

  /** What a start does when idle: a scan under its own timer, or, with no positive
      timeout, one that ends at once; without an adapter, nothing. */
  lemma StartWhenIdle(s: Scan, timeout: int, adapters: nat)
    requires !s.running
    ensures adapters > 0 && timeout > 0 ==>
      React(s, Start(timeout, adapters)) == Scan(true, [timeout * 1000], s.calls + [StartScan])
    ensures adapters > 0 && timeout <= 0 ==>
      React(s, Start(timeout, adapters)) == Scan(false, [], s.calls + [StartScan, StopScan])
    ensures adapters == 0 ==> React(s, Start(timeout, adapters)) == s
  {
    assert s.calls + [StartScan] + [StopScan] == s.calls + [StartScan, StopScan];
  }

  /** ... and what a start, a stop and the timer do while a scan runs. */
  lemma WhileRunning(s: Scan, timeout: int, adapters: nat, k: nat)
    requires s.running
    ensures React(s, Start(timeout, adapters)) == s
    ensures React(s, Stop) == Scan(false, [], s.calls + [StopScan])
    ensures React(s, TimerFires(k)) == if k < |s.timers| then React(s, Stop) else s
  {
  }

  /** Whatever schedules a former scan may have left behind, a scan that starts is
      left with its own alone, and one that ends with none. */
  lemma NoStaleTimer(s: Scan, e: Event)
    ensures !s.running && React(s, e).running ==> e.Start? && React(s, e).timers == [e.timeout * 1000]
    ensures s.running && !React(s, e).running ==> React(s, e).timers == []
  {
  }

  /** The pending delay is that of the start that began the running scan; starts
      in between do not replace or prolong it. */
  lemma {:induction false} OneTimerPerScan(events: seq<Event>, from: nat)
    requires from <= |events|
    requires ReactAll(IDLE, events[..from]).running
    requires forall k :: from <= k < |events| ==> events[k].Start?
    ensures ReactAll(IDLE, events) == ReactAll(IDLE, events[..from])
    ensures |ReactAll(IDLE, events).timers| == 1
  {
    DiscoveryInvariant(events[..from]);
    if from < |events| {
      var n := |events| - 1;
      assert events[..n][..from] == events[..from];
      OneTimerPerScan(events[..n], from);
    } else {
      assert events[..from] == events;
    }
  }

  /** The delay is a positive timeout of a past start in milliseconds. The
      multiplication is a 32-bit one: it stays in range exactly for timeouts up to
      2147483 seconds. */
  predicate DelayFrom(delay: int, events: seq<Event>, k: int) {
    && 0 <= k < |events| && events[k].Start? && events[k].timeout > 0
    && delay == events[k].timeout * 1000
    && (delay <= INT32_MAX <==> events[k].timeout <= 2147483)
  }

  /** Every pending delay stems from such a start. */
  lemma {:induction false} DelayOfStart(events: seq<Event>)
    ensures forall delay :: delay in ReactAll(IDLE, events).timers ==> exists k :: DelayFrom(delay, events, k)
  {
    if events != [] {
      var n := |events| - 1;
      var before, now := ReactAll(IDLE, events[..n]), ReactAll(IDLE, events);
      DelayOfStart(events[..n]);
      forall delay | delay in now.timers ensures exists k :: DelayFrom(delay, events, k) {
        if delay in before.timers {
          var k :| DelayFrom(delay, events[..n], k);
          assert DelayFrom(delay, events, k);
        } else {
          assert DelayFrom(delay, events, n);
        }
      }
    }
  }
}
