/**
 * The scan bookkeeping of `HostFinder` and the per-host vote of `PingOperation`.
 *
 * Results and ping samples arrive one at a time; the operation queue, the
 * dispatch hops and the pinging library are not modelled. Each class keeps
 * the fields the source updates, and each method is specified by a function
 * on a value snapshot of those fields (`Scan`, `Stats`), about which the
 * lemmas are proved.
 */
module HostFinding {

  import opened Address
  import opened Interface
  import opened Collections

  // ---------------------------------------------------------------------------
  // HostFinder

  /** A call of the `HostFinderDelegate`; progress is the pair (finished, total). */
  datatype Event =
    | Progress(finished: int, total: int)
    | Found(ip: IPv4Address)
    | Stopped(completed: bool)

  /** A snapshot of the fields of a HostFinder. */
  datatype Scan = Scan(
    isRunning: bool,
    totalCount: int,
    finishedCount: int,
    queue: seq<IPv4Address>,
    events: seq<Event>)

  /** A HostFinder just after `init(interfaces:)`. */
  function Initial(): Scan
  {
    Scan(false, 0, 0, [], [])
  }

  /** `interfaces.map { $0.addressesOnSubnet(ignoringMine: true) }.reduce([], +)`. */
  function QueuedIPs(interfaces: seq<IPv4Interface>): seq<IPv4Address>
  {
    Flatten(Subnets(interfaces))
  }

  /** The subnet of each interface, without the interface's own address. */
  function Subnets(interfaces: seq<IPv4Interface>): seq<seq<IPv4Address>>
  {
    seq(|interfaces|, k requires 0 <= k < |interfaces| => AddressesOnSubnet(interfaces[k], true))
  }

  /** `start()`: nothing while running; otherwise size the scan and queue one ping per host. */
  function AfterStart(s: Scan, interfaces: seq<IPv4Interface>): Scan
  {
    if s.isRunning then s
    else
      var ips := QueuedIPs(interfaces);
      s.(isRunning := true, totalCount := |ips|, queue := s.queue + ips)
  }

  /** `stop()`: cancel the queued pings and report an incomplete stop. */
  function AfterStop(s: Scan): Scan
  {
    s.(queue := [], events := s.events + [Stopped(false)])
  }

  /** `pingFinished(_:available:)`. */
  function AfterPingFinished(s: Scan, ip: IPv4Address, available: bool): Scan
  {
    var finished := s.finishedCount + 1;
    s.(finishedCount := finished,
       isRunning := if finished < s.totalCount then s.isRunning else false,
       events := s.events + Reported(s, ip, available))
  }

  /** The delegate calls `pingFinished` makes: found if the host answered, then progress or a completed stop. */
  function Reported(s: Scan, ip: IPv4Address, available: bool): seq<Event>
  {
    var finished := s.finishedCount + 1;
    (if available then [Found(ip)] else [])
    + [if finished < s.totalCount then Progress(finished, s.totalCount) else Stopped(true)]
  }

  class HostFinder {
    const interfaces: seq<IPv4Interface>
    var isRunning: bool
    var totalCount: int
    var finishedCount: int
    /** The hosts whose ping operations were added to the queue and not cancelled. */
    var queue: seq<IPv4Address>
    /** The delegate calls made so far, in order. */
    var events: seq<Event>

    function State(): Scan
      reads this
    {
      Scan(isRunning, totalCount, finishedCount, queue, events)
    }

    constructor(interfaces: seq<IPv4Interface>)
      ensures this.interfaces == interfaces
      ensures State() == Initial()
    {
      this.interfaces := interfaces;
      isRunning := false;
      totalCount := 0;
      finishedCount := 0;
      queue := [];
      events := [];
    }

    method Start()
      modifies this
      ensures State() == AfterStart(old(State()), interfaces)
      ensures old(isRunning) ==> unchanged(this)
      ensures finishedCount == old(finishedCount) && events == old(events)
    {
      if isRunning {
        return;
      }
      isRunning := true;
      var queuedIPs := QueuedIPs(interfaces);
      totalCount := |queuedIPs|;
      AddOperations(queuedIPs);
    }

    /** `queuedIPs.forEach { queue.addOperation(PingOperation(host: $0)) }`. */
    method AddOperations(ips: seq<IPv4Address>)
      modifies this
      ensures queue == old(queue) + ips
      ensures isRunning == old(isRunning) && totalCount == old(totalCount)
      ensures finishedCount == old(finishedCount) && events == old(events)
    {
      for n := 0 to |ips|
        invariant queue == old(queue) + ips[..n]
        invariant isRunning == old(isRunning) && totalCount == old(totalCount)
        invariant finishedCount == old(finishedCount) && events == old(events)
      {
        queue := queue + [ips[n]];
      }
      assert ips[..|ips|] == ips;
    }

    method Stop()
      modifies this
      ensures State() == AfterStop(old(State()))
      ensures isRunning == old(isRunning) && totalCount == old(totalCount) && finishedCount == old(finishedCount)
    {
      queue := [];
      events := events + [Stopped(false)];
    }

    method PingFinished(ip: IPv4Address, available: bool)
      modifies this
      ensures State() == AfterPingFinished(old(State()), ip, available)
      ensures finishedCount == old(finishedCount) + 1
    {
      finishedCount := finishedCount + 1;
      if available {
        events := events + [Found(ip)];
      }
      if finishedCount < totalCount {
        events := events + [Progress(finishedCount, totalCount)];
      } else {
        isRunning := false;
        events := events + [Stopped(true)];
      }
    }
  }

  // ---------------------------------------------------------------------------
  // Reading the events

  /** The progress pairs among the events, in order. */
  function ProgressOf(es: seq<Event>): seq<(int, int)>
  {
    if es == [] then []
    else
      var e := es[|es| - 1];
      ProgressOf(es[..|es| - 1]) + if e.Progress? then [(e.finished, e.total)] else []
  }

  /** The hosts reported as found, in order. */
  function FoundOf(es: seq<Event>): seq<IPv4Address>
  {
    if es == [] then []
    else
      var e := es[|es| - 1];
      FoundOf(es[..|es| - 1]) + if e.Found? then [e.ip] else []
  }

  /** The arguments of the stop reports, in order. */
  function StoppedOf(es: seq<Event>): seq<bool>
  {
    if es == [] then []
    else
      var e := es[|es| - 1];
      StoppedOf(es[..|es| - 1]) + if e.Stopped? then [e.completed] else []
  }

  /** Each projection of a concatenation is the concatenation of the projections. */
  lemma {:induction false} ProjectionsAppend(a: seq<Event>, b: seq<Event>)
    ensures ProgressOf(a + b) == ProgressOf(a) + ProgressOf(b)
    ensures FoundOf(a + b) == FoundOf(a) + FoundOf(b)
    ensures StoppedOf(a + b) == StoppedOf(a) + StoppedOf(b)
    decreases |b|
  {
    if b == [] {
      assert a + b == a;
    } else {
      var c := b[..|b| - 1];
      assert (a + b)[..|a + b| - 1] == a + c;
      assert (a + b)[|a + b| - 1] == b[|b| - 1];
      ProjectionsAppend(a, c);
    }
  }

  // ---------------------------------------------------------------------------
  // Properties of one call

  /**
   * `start` sizes the scan by the subnets of all interfaces, in interface order,
   * and queues exactly the hosts of those subnets; it never resets
   * `finishedCount`, and while a scan is running it does nothing.
   */
  lemma StartSizesScan(s: Scan, interfaces: seq<IPv4Interface>)
    ensures s.isRunning ==> AfterStart(s, interfaces) == s
    ensures !s.isRunning ==>
      var t := AfterStart(s, interfaces);
      && t.isRunning
      && t.totalCount == TotalLength(Subnets(interfaces))
      && t.finishedCount == s.finishedCount
      && t.events == s.events
      && t.queue[..|s.queue|] == s.queue
      && |t.queue| == |s.queue| + t.totalCount
      && forall x :: x in t.queue[|s.queue|..] <==>
           exists k :: 0 <= k < |interfaces| && x in AddressesOnSubnet(interfaces[k], true)
  {
    if !s.isRunning {
      var t := AfterStart(s, interfaces);
      assert t.queue[|s.queue|..] == QueuedIPs(interfaces);
      forall x ensures x in QueuedIPs(interfaces) <==>
        exists k :: 0 <= k < |interfaces| && x in AddressesOnSubnet(interfaces[k], true)
      {
        var ss := Subnets(interfaces);
        assert forall k :: 0 <= k < |interfaces| ==> ss[k] == AddressesOnSubnet(interfaces[k], true);
      }
    }
  }

  /**
   * One result: the finished count grows by one, the host is reported as
   * found exactly when it answered, and then exactly one of a progress report
   * (while results are missing) or a completed stop (which clears `isRunning`).
   */
  lemma PingFinishedReports(s: Scan, ip: IPv4Address, available: bool)
    ensures var t, e := AfterPingFinished(s, ip, available), Reported(s, ip, available);
      && t.events == s.events + e
      && t.finishedCount == s.finishedCount + 1
      && t.totalCount == s.totalCount
      && t.queue == s.queue
      && FoundOf(e) == (if available then [ip] else [])
      && (t.finishedCount < t.totalCount ==>
            ProgressOf(e) == [(t.finishedCount, t.totalCount)] && StoppedOf(e) == [] && t.isRunning == s.isRunning
            && e[|e| - 1] == Progress(t.finishedCount, t.totalCount))
      && |e| == (if available then 2 else 1)
      && (available ==> e[0] == Found(ip))
      && (t.finishedCount >= t.totalCount ==>
            ProgressOf(e) == [] && StoppedOf(e) == [true] && !t.isRunning && e[|e| - 1] == Stopped(true))
  {
    ReportedProjections(s, ip, available);
    ReportedOrder(s, ip, available);
  }

  /** The found, progress and stop reports among the events of one result. */
  lemma ReportedProjections(s: Scan, ip: IPv4Address, available: bool)
    ensures var m, n, e := s.finishedCount + 1, s.totalCount, Reported(s, ip, available);
      && ProgressOf(e) == (if m < n then [(m, n)] else [])
      && FoundOf(e) == (if available then [ip] else [])
      && StoppedOf(e) == (if m < n then [] else [true])
  {
    var found := if available then [Found(ip)] else [];
    var last := if s.finishedCount + 1 < s.totalCount then Progress(s.finishedCount + 1, s.totalCount) else Stopped(true);
    ProjectionsAppend(found, [last]);
    ProjectionsOfOne(last);
    ProjectionsOfOne(Found(ip));
  }

  /**
   * The order of the events of one result: the found report first when the
   * host answered, then, as the last event, exactly one progress report or
   * completed stop.
   */
  lemma ReportedOrder(s: Scan, ip: IPv4Address, available: bool)
    ensures var m, n, e := s.finishedCount + 1, s.totalCount, Reported(s, ip, available);
      && |e| == (if available then 2 else 1)
      && (available ==> e[0] == Found(ip))
      && e[|e| - 1] == (if m < n then Progress(m, n) else Stopped(true))
  {
  }

  /** The projections of a single event. */
  lemma ProjectionsOfOne(e: Event)
    ensures ProgressOf([e]) == (if e.Progress? then [(e.finished, e.total)] else [])
    ensures FoundOf([e]) == (if e.Found? then [e.ip] else [])
    ensures StoppedOf([e]) == (if e.Stopped? then [e.completed] else [])
  {
    assert [e][..0] == [];
  }

  /** `stop` reports one incomplete stop and touches neither `isRunning` nor the counts. */
  lemma StopReports(s: Scan)
    ensures var t := AfterStop(s);
      && t.isRunning == s.isRunning && t.totalCount == s.totalCount && t.finishedCount == s.finishedCount
      && t.queue == []
      && StoppedOf(t.events) == StoppedOf(s.events) + [false]
      && ProgressOf(t.events) == ProgressOf(s.events)
      && FoundOf(t.events) == FoundOf(s.events)
  {
    ProjectionsAppend(s.events, [Stopped(false)]);
    ProjectionsOfOne(Stopped(false));
  }

  // ---------------------------------------------------------------------------
  // Whole scans

  /** The result of one ping operation, as it reaches `pingFinished`. */
  datatype PingResult = PingResult(ip: IPv4Address, available: bool)

  /** The state after the results rs arrive in order. */
  function Replay(s: Scan, rs: seq<PingResult>): (t: Scan)
    ensures |t.events| >= |s.events| && t.events[..|s.events|] == s.events
    ensures t.totalCount == s.totalCount && t.queue == s.queue
    ensures t.finishedCount == s.finishedCount + |rs|
  {
    if rs == [] then s
    else
      var last := rs[|rs| - 1];
      var before := Replay(s, rs[..|rs| - 1]);
      var after := AfterPingFinished(before, last.ip, last.available);
      assert after.events[..|before.events|] == before.events;
      after
  }

  /** The hosts of the results that answered, in order. */
  function AvailableHosts(rs: seq<PingResult>): seq<IPv4Address>
  {
    if rs == [] then []
    else
      var r := rs[|rs| - 1];
      AvailableHosts(rs[..|rs| - 1]) + if r.available then [r.ip] else []
  }

  /** The events reported while the results rs arrive. */
  function Emitted(s: Scan, rs: seq<PingResult>): seq<Event>
  {
    Replay(s, rs).events[|s.events|..]
  }

  /** The events of one more result are appended to those of the earlier ones. */
  lemma EmittedStep(s: Scan, rs: seq<PingResult>)
    requires rs != []
    ensures var before, r := Replay(s, rs[..|rs| - 1]), rs[|rs| - 1];
      var added := Reported(before, r.ip, r.available);
      && Replay(s, rs) == AfterPingFinished(before, r.ip, r.available)
      && Emitted(s, rs) == Emitted(s, rs[..|rs| - 1]) + added
  {
    var before, r := Replay(s, rs[..|rs| - 1]), rs[|rs| - 1];
    var added := Reported(before, r.ip, r.available);
    assert Replay(s, rs).events == before.events + added;
  }

  /** The progress pairs (1, n), (2, n), ..., (count, n). */
  function Fractions(count: nat, n: int): seq<(int, int)>
  {
    if count == 0 then [] else Fractions(count - 1, n) + [(count, n)]
  }

  /** The k-th progress pair is (k + 1, n). */
  lemma {:induction false} FractionsAt(count: nat, n: int)
    ensures |Fractions(count, n)| == count
    ensures forall k :: 0 <= k < count ==> Fractions(count, n)[k] == (k + 1, n)
  {
    if count > 0 {
      FractionsAt(count - 1, n);
    }
  }

  /** The progress reports of a scan of n hosts counted from zero are 1/n, 2/n, ... in order, never n/n. */
  lemma {:induction false} ScanProgress(s: Scan, rs: seq<PingResult>)
    requires s.finishedCount == 0 && |rs| <= s.totalCount
    ensures ProgressOf(Emitted(s, rs)) == Fractions(if 0 < |rs| == s.totalCount then |rs| - 1 else |rs|, s.totalCount)
    decreases |rs|
  {
    if rs != [] {
      var r := rs[|rs| - 1];
      ScanProgress(s, rs[..|rs| - 1]);
      EmittedStep(s, rs);
      ProgressStep(Emitted(s, rs[..|rs| - 1]), Replay(s, rs[..|rs| - 1]), r.ip, r.available);
    }
  }

  /** The induction step of ScanProgress. */
  lemma ProgressStep(prev: seq<Event>, before: Scan, ip: IPv4Address, available: bool)
    requires 0 <= before.finishedCount < before.totalCount
    requires ProgressOf(prev) == Fractions(before.finishedCount, before.totalCount)
    ensures var m, n := before.finishedCount + 1, before.totalCount;
      ProgressOf(prev + Reported(before, ip, available)) == Fractions(if m == n then m - 1 else m, n)
  {
    var m, n := before.finishedCount + 1, before.totalCount;
    ProjectionsAppend(prev, Reported(before, ip, available));
    ReportedProjections(before, ip, available);
    if m < n {
      assert Fractions(m, n) == Fractions(m - 1, n) + [(m, n)];
    }
  }

  /** The hosts reported as found are exactly those whose ping answered, in the order of the results. */
  lemma {:induction false} ScanFound(s: Scan, rs: seq<PingResult>)
    ensures FoundOf(Emitted(s, rs)) == AvailableHosts(rs)
    decreases |rs|
  {
    if rs != [] {
      var r := rs[|rs| - 1];
      var before := Replay(s, rs[..|rs| - 1]);
      ScanFound(s, rs[..|rs| - 1]);
      EmittedStep(s, rs);
      ReportedProjections(before, r.ip, r.available);
      ProjectionsAppend(Emitted(s, rs[..|rs| - 1]), Reported(before, r.ip, r.available));
    }
  }

  /**
   * In a scan of n hosts counted from zero, a completed stop is reported only
   * when the n-th result arrives, then exactly once and as the last event, and
   * only then is `isRunning` cleared.
   */
  lemma {:induction false} ScanStops(s: Scan, rs: seq<PingResult>)
    requires s.finishedCount == 0 && |rs| <= s.totalCount
    ensures StoppedOf(Emitted(s, rs)) == (if 0 < |rs| == s.totalCount then [true] else [])
    ensures |rs| < s.totalCount ==> Replay(s, rs).isRunning == s.isRunning
    ensures 0 < |rs| == s.totalCount ==> !Replay(s, rs).isRunning && Emitted(s, rs)[|Emitted(s, rs)| - 1] == Stopped(true)
    decreases |rs|
  {
    if rs != [] {
      var r := rs[|rs| - 1];
      ScanStops(s, rs[..|rs| - 1]);
      EmittedStep(s, rs);
      StopsStep(Emitted(s, rs[..|rs| - 1]), Replay(s, rs[..|rs| - 1]), r.ip, r.available);
    }
  }

  /** The induction step of ScanStops. */
  lemma StopsStep(prev: seq<Event>, before: Scan, ip: IPv4Address, available: bool)
    requires 0 <= before.finishedCount < before.totalCount
    requires StoppedOf(prev) == []
    ensures var t, e := AfterPingFinished(before, ip, available), prev + Reported(before, ip, available);
      && StoppedOf(e) == (if t.finishedCount == t.totalCount then [true] else [])
      && (t.finishedCount < t.totalCount ==> t.isRunning == before.isRunning)
      && (t.finishedCount == t.totalCount ==> !t.isRunning && e[|e| - 1] == Stopped(true))
  {
    ReportedProjections(before, ip, available);
    ReportedOrder(before, ip, available);
    ProjectionsAppend(prev, Reported(before, ip, available));
  }

  /**
   * A scan of n hosts counted from zero runs to completion: when n results
   * arrive, the progress values strictly increase and stay below one, and
   * exactly one completed stop is reported, as the last event.
   */
  lemma ScanCompletes(s: Scan, rs: seq<PingResult>)
    requires s.finishedCount == 0 && 0 < |rs| == s.totalCount
    ensures var e, p := Emitted(s, rs), ProgressOf(Emitted(s, rs));
      && |p| == |rs| - 1
      && (forall j :: 0 <= j < |p| ==> 0 < p[j].0 < p[j].1 == |rs|)
      && (forall j, k :: 0 <= j < k < |p| ==> p[j].0 < p[k].0)
      && StoppedOf(e) == [true]
      && e[|e| - 1] == Stopped(true)
      && FoundOf(e) == AvailableHosts(rs)
      && !Replay(s, rs).isRunning
  {
    ScanProgress(s, rs);
    FractionsBelowOne(|rs| - 1, |rs|);
    ScanFound(s, rs);
    ScanStops(s, rs);
  }

  /** The pairs (1, n) ... (count, n) with count < n are fractions strictly between 0 and 1, strictly increasing. */
  lemma FractionsBelowOne(count: nat, n: int)
    requires count < n
    ensures var p := Fractions(count, n);
      && |p| == count
      && (forall j :: 0 <= j < |p| ==> 0 < p[j].0 < p[j].1 == n)
      && (forall j, k :: 0 <= j < k < |p| ==> p[j].0 < p[k].0)
  {
    FractionsAt(count, n);
  }

  /** On a fresh HostFinder, `start` followed by one result per queued host completes the scan. */
  lemma FreshScanCompletes(interfaces: seq<IPv4Interface>, rs: seq<PingResult>)
    requires |rs| == |QueuedIPs(interfaces)| > 0
    ensures var t := Replay(AfterStart(Initial(), interfaces), rs);
      && ProgressOf(t.events) == Fractions(|rs| - 1, |rs|)
      && StoppedOf(t.events) == [true]
      && t.events[|t.events| - 1] == Stopped(true)
      && FoundOf(t.events) == AvailableHosts(rs)
      && !t.isRunning
  {
    var s := AfterStart(Initial(), interfaces);
    assert s.events == [] && s.finishedCount == 0 && s.totalCount == |rs|;
    ScanCompletes(s, rs);
    ScanProgress(s, rs);
    assert Emitted(s, rs) == Replay(s, rs).events;
  }

  /**
   * `stop` during a scan does not end it: `isRunning` stays set, so a later
   * `start` does nothing, while results of pings already under way are still
   * counted and reported.
   */
  lemma StopDoesNotEndScan(s: Scan, interfaces: seq<IPv4Interface>, ip: IPv4Address)
    requires s.isRunning && s.finishedCount + 1 < s.totalCount
    ensures AfterStart(AfterStop(s), interfaces) == AfterStop(s)
    ensures var t := AfterPingFinished(AfterStop(s), ip, true);
      && t.isRunning
      && FoundOf(t.events) == FoundOf(s.events) + [ip]
      && ProgressOf(t.events) == ProgressOf(s.events) + [(s.finishedCount + 1, s.totalCount)]
  {
    var u := AfterStop(s);
    StopReports(s);
    var e := Reported(u, ip, true);
    ReportedProjections(u, ip, true);
    ProjectionsAppend(u.events, e);
    assert AfterPingFinished(u, ip, true).events == u.events + e;
  }

  /**
   * Since `start` keeps `finishedCount`, a second scan no larger than the
   * results already counted reports a completed stop on its first result.
   */
  lemma SecondScanStopsEarly(s: Scan, interfaces: seq<IPv4Interface>, ip: IPv4Address, available: bool)
    requires !s.isRunning && |QueuedIPs(interfaces)| <= s.finishedCount
    ensures var t := AfterPingFinished(AfterStart(s, interfaces), ip, available);
      && !t.isRunning
      && StoppedOf(t.events) == StoppedOf(s.events) + [true]
      && ProgressOf(t.events) == ProgressOf(s.events)
  {
    var u := AfterStart(s, interfaces);
    ReportedProjections(u, ip, available);
    ProjectionsAppend(u.events, Reported(u, ip, available));
  }

  // ---------------------------------------------------------------------------
  // PingOperation

  /** A snapshot of a PingOperation's `stats` and of the completion calls made so far. */
  datatype Stats = Stats(successes: int, failures: int, completions: seq<bool>)

  /** `updateStats(success:)`: count the sample; on the third, call the completion with the verdict. */
  function Record(st: Stats, success: bool): Stats
  {
    var counted := if success then st.(successes := st.successes + 1) else st.(failures := st.failures + 1);
    if counted.successes + counted.failures == 3 then
      counted.(completions := counted.completions + [counted.successes >= counted.failures])
    else counted
  }

  /** The stats after the samples arrive in order, from `(0, 0)`. */
  function RecordAll(samples: seq<bool>): Stats
  {
    if samples == [] then Stats(0, 0, [])
    else Record(RecordAll(samples[..|samples| - 1]), samples[|samples| - 1])
  }

  /** The number of successful samples. */
  function Successes(samples: seq<bool>): nat
  {
    if samples == [] then 0
    else Successes(samples[..|samples| - 1]) + if samples[|samples| - 1] then 1 else 0
  }

  /** Two of three, the majority verdict. */
  predicate Majority(a: bool, b: bool, c: bool)
  {
    (a && b) || (a && c) || (b && c)
  }

  class PingOperation {
    const host: IPv4Address
    var successes: int
    var failures: int
    /** The arguments of the completion calls made so far, in order. */
    var completions: seq<bool>

    function Tally(): Stats
      reads this
    {
      Stats(successes, failures, completions)
    }

    constructor(host: IPv4Address)
      ensures this.host == host && Tally() == Stats(0, 0, [])
    {
      this.host := host;
      successes := 0;
      failures := 0;
      completions := [];
    }

    method UpdateStats(success: bool)
      modifies this
      ensures Tally() == Record(old(Tally()), success)
    {
      if success {
        successes := successes + 1;
      } else {
        failures := failures + 1;
      }
      if successes + failures == 3 {
        completions := completions + [successes >= failures];
      }
    }

    /** `ping(_:didReceiveReplyWith:)`: a success. */
    method DidReceiveReply()
      modifies this
      ensures Tally() == Record(old(Tally()), true)
    {
      UpdateStats(true);
    }

    /** `ping(_:didReceiveUnexpectedReplyWith:)`: a success. */
    method DidReceiveUnexpectedReply()
      modifies this
      ensures Tally() == Record(old(Tally()), true)
    {
      UpdateStats(true);
    }

    /** `ping(_:didTimeoutWith:)`: a failure. */
    method DidTimeout()
      modifies this
      ensures Tally() == Record(old(Tally()), false)
    {
      UpdateStats(false);
    }

    /** `ping(_:didFailWithError:)`: a failure. */
    method DidFail()
      modifies this
      ensures Tally() == Record(old(Tally()), false)
    {
      UpdateStats(false);
    }

    /** `ping(_:didFailToSendPingWith:error:)`: a failure. */
    method DidFailToSend()
      modifies this
      ensures Tally() == Record(old(Tally()), false)
    {
      UpdateStats(false);
    }
  }

  /** Each sample raises exactly one of the two counts by one. */
  lemma RecordCountsOne(st: Stats, success: bool)
    ensures var t := Record(st, success);
      && t.successes == st.successes + (if success then 1 else 0)
      && t.failures == st.failures + (if success then 0 else 1)
      && t.completions[..|st.completions|] == st.completions
      && |t.completions| <= |st.completions| + 1
  {
  }

  /**
   * After any run of samples the counts are the numbers of successes and
   * failures; the completion has been called once exactly when there were at
   * least three samples, and its verdict is the majority of the first three.
   */
  lemma {:induction false} VerdictOnce(samples: seq<bool>)
    ensures var st := RecordAll(samples);
      && st.successes == Successes(samples)
      && st.failures == |samples| - Successes(samples)
      && |st.completions| == (if |samples| >= 3 then 1 else 0)
      && (|samples| >= 3 ==> st.completions == [Majority(samples[0], samples[1], samples[2])])
  {
    if samples != [] {
      var init := samples[..|samples| - 1];
      VerdictOnce(init);
      if |samples| > 3 {
        assert init[0] == samples[0] && init[1] == samples[1] && init[2] == samples[2];
      }
      if |samples| == 3 {
        assert init == [samples[0], samples[1]];
        assert init[..1] == [samples[0]];
      }
    }
  }
}
