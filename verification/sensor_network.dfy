/**
  The orchestration logic of `ZigBeeSensorNetwork`: the sensor conversions,
  the per-device data line, one polling pass over the known remotes, the
  `discover()` transition, and the text form of the collected data.

  Every call into the radio library is an oracle input: a pass receives one
  `DeviceOutcome` per remote, in `remotes` order, and `discover()` receives
  whether the library reports a discovery as already running and which
  devices a discovery finds. Timers are reduced to their `Timer` state.
 */
module SensorNetwork {
  import opened Common
  import opened Text
  import opened NeighborTable

  /** Degrees Celsius from the raw value of analog line AD0. */
  function Temperature(raw: int): (t: real)
    ensures 0 <= raw <= 1023 ==> -50.0 <= t <= 70.0
  {
    (raw as real * 120.0) / 1023.0 - 50.0
  }

  /** Ambient light as a fraction from the raw value of analog line AD1. */
  function Light(raw: int): (l: real)
    ensures 0 <= raw <= 1023 ==> 0.0 <= l < 1.0
    ensures raw == 1024 ==> l == 1.0
  {
    raw as real / 1024.0
  }

  /** Both conversions are strictly increasing in the raw reading. */
  lemma ConversionsMonotone(a: int, b: int)
    requires a < b
    ensures Temperature(a) < Temperature(b)
    ensures Light(a) < Light(b)
  {
    assert (a as real) * 120.0 < (b as real) * 120.0;
  }

  /** A mid-scale reading of 512 is about 10.06 degrees. */
  lemma MidScaleTemperature()
    ensures 10.058 < Temperature(512) < 10.059
  {
  }

  /** One space-separated item of a data line. Reals and addresses stay
      abstract: their Java text form is produced by `show` when rendering. */
  datatype Token = AddressToken(address: Address) | RealToken(x: real) | IntToken(n: int)

  /** What the library calls returned for one remote: the two analog values,
      whether DIO3 read HIGH, the first byte of the `DB` parameter (RSSI), the
      neighbour table built for it, and the order its key set iterates in. */
  datatype Reading = Reading(adc0: int, adc1: int, dio3High: bool, rssi: JByte,
                             table: map<Address, int>, order: seq<Address>)

  /** How the body of the per-device `try` ended: all reads succeeded, a
      `TimeoutException`, another `XBeeException`, or an unchecked exception
      (an index exception escaping the neighbour table) that nothing catches. */
  datatype DeviceOutcome = Ok(reading: Reading) | TimedOut | OtherError | Unchecked

  /** `getNeighbors()` iterates each key of the table exactly once. */
  ghost predicate OrderEnumerates(table: map<Address, int>, order: seq<Address>) {
    && (forall a :: a in table <==> a in order)
    && (forall j, k :: 0 <= j < k < |order| ==> order[j] != order[k])
  }

  /** The "address lqi" pairs appended for the neighbours, in iteration order. */
  function NeighbourTokens(table: map<Address, int>, order: seq<Address>): (ts: seq<Token>)
    ensures |ts| == 2 * |order|
    ensures forall j :: 0 <= j < |order| ==>
      ts[2 * j] == AddressToken(order[j]) && ts[2 * j + 1] == IntToken(GetLqi(table, order[j]))
  {
    if |order| == 0 then []
    else [AddressToken(order[0]), IntToken(GetLqi(table, order[0]))] + NeighbourTokens(table, order[1..])
  }

  /** When the iteration enumerates the table, the line lists every neighbour
      once, next to the link quality stored for it. */
  lemma LineListsEveryNeighbour(address: Address, rd: Reading, a: Address)
    requires OrderEnumerates(rd.table, rd.order) && a in rd.table
    ensures exists j :: (0 <= j < |rd.order| && DeviceLine(address, rd)[5 + 2 * j] == AddressToken(a)
                         && DeviceLine(address, rd)[6 + 2 * j] == IntToken(rd.table[a]))
  {
    var line := DeviceLine(address, rd);
    var j :| 0 <= j < |rd.order| && rd.order[j] == a;
    assert line[5..][2 * j] == line[5 + 2 * j];
    assert line[5..][2 * j + 1] == line[6 + 2 * j];
  }

  /** The line for a device: address, temperature, light, motion as 1 or 0,
      RSSI, then one address/LQI pair per neighbour. */
  function DeviceLine(address: Address, rd: Reading): (line: seq<Token>)
    ensures |line| == 5 + 2 * |rd.order|
    ensures line[0] == AddressToken(address)
    ensures line[1] == RealToken(Temperature(rd.adc0)) && line[2] == RealToken(Light(rd.adc1))
    ensures line[3] == IntToken(if rd.dio3High then 1 else 0) && line[4] == IntToken(rd.rssi)
    ensures line[5..] == NeighbourTokens(rd.table, rd.order)
  {
    [AddressToken(address), RealToken(Temperature(rd.adc0)), RealToken(Light(rd.adc1)),
     IntToken(if rd.dio3High then 1 else 0), IntToken(rd.rssi)]
    + NeighbourTokens(rd.table, rd.order)
  }

  /** A neighbour is drift when it is neither a known remote nor the
      coordinator's own address. */
  predicate Drifts(remotes: seq<Address>, own: Address, a: Address) {
    a !in remotes && a != own
  }

  /** Whether the neighbour loop of a device reaches a drifting neighbour. */
  function FirstDrift(remotes: seq<Address>, own: Address, order: seq<Address>): (j: nat)
    ensures j <= |order|
    ensures forall k :: 0 <= k < j ==> !Drifts(remotes, own, order[k])
    ensures j < |order| ==> Drifts(remotes, own, order[j])
  {
    if |order| == 0 || Drifts(remotes, own, order[0]) then 0
    else 1 + FirstDrift(remotes, own, order[1..])
  }

  predicate HasDrift(remotes: seq<Address>, own: Address, order: seq<Address>) {
    FirstDrift(remotes, own, order) < |order|
  }

  /** Why a pass asks for rediscovery: a node timed out, or a neighbour is unknown. */
  datatype Cause = Unreachable | Drift

  /** How a pass ended: every remote visited, aborted at device `at` to
      rediscover, or ended by an unchecked exception at device `at`. */
  datatype PassEnd = Completed | Rediscover(cause: Cause, at: nat) | Crashed(at: nat)

  datatype PassResult = PassResult(lines: seq<seq<Token>>, end: PassEnd)

  /** The `for` loop of `pollNodes` from device `k` on. */
  function Visit(remotes: seq<Address>, own: Address, outcomes: seq<DeviceOutcome>, k: nat): (r: PassResult)
    requires |outcomes| == |remotes| && k <= |remotes|
    ensures |r.lines| <= |remotes| - k
    ensures r.end.Rediscover? || r.end.Crashed? ==> k <= r.end.at < |remotes|
    decreases |remotes| - k
  {
    if k == |remotes| then PassResult([], Completed)
    else match outcomes[k]
      case TimedOut => PassResult([], Rediscover(Unreachable, k))
      case OtherError => Visit(remotes, own, outcomes, k + 1)
      case Unchecked => PassResult([], Crashed(k))
      case Ok(rd) =>
        if HasDrift(remotes, own, rd.order) then PassResult([], Rediscover(Drift, k))
        else
          var rest := Visit(remotes, own, outcomes, k + 1);
          PassResult([DeviceLine(remotes[k], rd)] + rest.lines, rest.end)
  }

  /** `pollNodes`' loop over every remote: the lines of the successfully read
      devices before the first stopping device, and the end that device
      dictates (see `VisitCharacterised`). */
  function Pass(remotes: seq<Address>, own: Address, outcomes: seq<DeviceOutcome>): (r: PassResult)
    requires |outcomes| == |remotes|
    ensures var n := FirstStop(remotes, own, outcomes, 0);
      && r.lines == OkLines(remotes, outcomes, 0, n)
      && r.end == (if n == |remotes| then Completed else StopEnd(remotes, own, outcomes[n], n))
  {
    VisitCharacterised(remotes, own, outcomes, 0);
    Visit(remotes, own, outcomes, 0)
  }

  // ---------------------------------------------------------------------
  // An independent description of a pass.

  /** A device at which the pass stops. */
  predicate Stops(remotes: seq<Address>, own: Address, o: DeviceOutcome) {
    o.TimedOut? || o.Unchecked? || (o.Ok? && HasDrift(remotes, own, o.reading.order))
  }

  /** The first device from `k` on at which the pass stops, or `|remotes|`. */
  function FirstStop(remotes: seq<Address>, own: Address, outcomes: seq<DeviceOutcome>, k: nat): (n: nat)
    requires |outcomes| == |remotes| && k <= |remotes|
    ensures k <= n <= |remotes|
    ensures forall j :: k <= j < n ==> !Stops(remotes, own, outcomes[j])
    ensures n < |remotes| ==> Stops(remotes, own, outcomes[n])
    decreases |remotes| - k
  {
    if k == |remotes| || Stops(remotes, own, outcomes[k]) then k
    else FirstStop(remotes, own, outcomes, k + 1)
  }

  /** The lines of the devices in `[k, n)` whose reads all succeeded. */
  function OkLines(remotes: seq<Address>, outcomes: seq<DeviceOutcome>, k: nat, n: nat): seq<seq<Token>>
    requires |outcomes| == |remotes| && k <= n <= |remotes|
    decreases n - k
  {
    if k == n then []
    else if outcomes[k].Ok? then [DeviceLine(remotes[k], outcomes[k].reading)] + OkLines(remotes, outcomes, k + 1, n)
    else OkLines(remotes, outcomes, k + 1, n)
  }

  /** How the pass ends at the device where it stops. */
  function StopEnd(remotes: seq<Address>, own: Address, o: DeviceOutcome, at: nat): PassEnd {
    if o.TimedOut? then Rediscover(Unreachable, at)
    else if o.Unchecked? then Crashed(at)
    else Rediscover(Drift, at)
  }

  /** A pass keeps the line of every successfully read device before the
      first stopping device, in `remotes` order, skipping devices that raised
      another XBee exception; it ends as that stopping device dictates, or
      completes when there is none. */
  lemma {:induction false} VisitCharacterised(remotes: seq<Address>, own: Address, outcomes: seq<DeviceOutcome>, k: nat)
    requires |outcomes| == |remotes| && k <= |remotes|
    ensures var n := FirstStop(remotes, own, outcomes, k);
      var r := Visit(remotes, own, outcomes, k);
      && r.lines == OkLines(remotes, outcomes, k, n)
      && r.end == (if n == |remotes| then Completed else StopEnd(remotes, own, outcomes[n], n))
    decreases |remotes| - k
  {
    if k < |remotes| && !Stops(remotes, own, outcomes[k]) {
      VisitCharacterised(remotes, own, outcomes, k + 1);
    }
  }

  /** With every read succeeding and no drift, the pass holds exactly one line
      per remote, in `remotes` order. */
  lemma AllDevicesAnswer(remotes: seq<Address>, own: Address, outcomes: seq<DeviceOutcome>)
    requires |outcomes| == |remotes|
    requires forall k :: 0 <= k < |remotes| ==> outcomes[k].Ok? && !HasDrift(remotes, own, outcomes[k].reading.order)
    ensures var r := Pass(remotes, own, outcomes);
      && r.end == Completed
      && |r.lines| == |remotes|
      && forall k :: 0 <= k < |remotes| ==> r.lines[k] == DeviceLine(remotes[k], outcomes[k].reading)
  {
    var r := Pass(remotes, own, outcomes);
    assert forall j :: 0 <= j < |remotes| ==> !Stops(remotes, own, outcomes[j]);
    NoStops(remotes, own, outcomes, 0);
    VisitCharacterised(remotes, own, outcomes, 0);
    var lines := OkLines(remotes, outcomes, 0, |remotes|);
    assert r.lines == lines && r.end == Completed;
    AllOkLines(remotes, outcomes, 0);
    forall k | 0 <= k < |remotes|
      ensures r.lines[k] == DeviceLine(remotes[k], outcomes[k].reading)
    {
      assert lines[k - 0] == DeviceLine(remotes[k], outcomes[k].reading);
    }
  }

  lemma {:induction false} NoStops(remotes: seq<Address>, own: Address, outcomes: seq<DeviceOutcome>, k: nat)
    requires |outcomes| == |remotes| && k <= |remotes|
    requires forall j :: k <= j < |remotes| ==> !Stops(remotes, own, outcomes[j])
    ensures FirstStop(remotes, own, outcomes, k) == |remotes|
    decreases |remotes| - k
  {
    if k < |remotes| {
      NoStops(remotes, own, outcomes, k + 1);
    }
  }

  lemma ConsIndex<T>(x: T, s: seq<T>, i: nat)
    requires 0 < i <= |s|
    ensures ([x] + s)[i] == s[i - 1]
  {
  }

  lemma {:induction false} AllOkLines(remotes: seq<Address>, outcomes: seq<DeviceOutcome>, k: nat)
    requires |outcomes| == |remotes| && k <= |remotes|
    requires forall j :: k <= j < |remotes| ==> outcomes[j].Ok?
    ensures |OkLines(remotes, outcomes, k, |remotes|)| == |remotes| - k
    ensures forall j :: k <= j < |remotes| ==>
      OkLines(remotes, outcomes, k, |remotes|)[j - k] == DeviceLine(remotes[j], outcomes[j].reading)
    decreases |remotes| - k
  {
    if k < |remotes| {
      AllOkLines(remotes, outcomes, k + 1);
      var rest := OkLines(remotes, outcomes, k + 1, |remotes|);
      var all := OkLines(remotes, outcomes, k, |remotes|);
      var line := DeviceLine(remotes[k], outcomes[k].reading);
      assert all == [line] + rest;
      forall j | k < j < |remotes|
        ensures all[j - k] == DeviceLine(remotes[j], outcomes[j].reading)
      {
        ConsIndex(line, rest, j - k);
      }
    }
  }

  /** Nothing after the stopping device is looked at: outcomes that agree up
      to and including it give the same pass. */
  lemma {:induction false} VisitIgnoresLater(remotes: seq<Address>, own: Address, outcomes: seq<DeviceOutcome>,
                                             other: seq<DeviceOutcome>, k: nat)
    requires |outcomes| == |remotes| == |other| && k <= |remotes|
    requires var n := FirstStop(remotes, own, outcomes, k);
      forall j :: k <= j <= n && j < |remotes| ==> other[j] == outcomes[j]
    ensures Visit(remotes, own, other, k) == Visit(remotes, own, outcomes, k)
    decreases |remotes| - k
  {
    if k < |remotes| && !Stops(remotes, own, outcomes[k]) {
      VisitIgnoresLater(remotes, own, outcomes, other, k + 1);
    }
  }

  /** A device whose neighbour list drifts aborts the pass there, and its
      own line is not kept; a device whose neighbours are all known remotes
      or the coordinator never does. */
  lemma DriftAborts(remotes: seq<Address>, own: Address, outcomes: seq<DeviceOutcome>, k: nat)
    requires |outcomes| == |remotes| && k < |remotes|
    requires forall j :: 0 <= j < k ==> !Stops(remotes, own, outcomes[j])
    requires outcomes[k].Ok?
    ensures Pass(remotes, own, outcomes).end == Rediscover(Drift, k)
        <==> exists a :: a in outcomes[k].reading.order && Drifts(remotes, own, a)
    ensures HasDrift(remotes, own, outcomes[k].reading.order) ==>
      Pass(remotes, own, outcomes).lines == OkLines(remotes, outcomes, 0, k)
    ensures OrderEnumerates(outcomes[k].reading.table, outcomes[k].reading.order) ==>
      ((Pass(remotes, own, outcomes).end == Rediscover(Drift, k))
       <==> (exists a :: a in outcomes[k].reading.table && Drifts(remotes, own, a)))
  {
    VisitCharacterised(remotes, own, outcomes, 0);
    var order := outcomes[k].reading.order;
    var j := FirstDrift(remotes, own, order);
    if j < |order| {
      assert order[j] in order;
    }
    if FirstStop(remotes, own, outcomes, 0) != k {
      assert FirstStop(remotes, own, outcomes, 0) > k;
    }
  }

  // ---------------------------------------------------------------------
  // The orchestrator state.

  /** `remotes`, `data`, the two timers, the polling period, and how many
      times `discover()` has been entered. */
  datatype Net = Net(remotes: seq<Address>, data: seq<seq<Token>>, polling: Timer, discovery: Timer,
                     pollInterval: int, discoveries: nat)

  /** `discover()`: cancel polling first; if the library reports a discovery
      already running, return; otherwise replace the remotes with what the
      discovery found and schedule a new polling timer at delay 0. */
  function Discover(n: Net, running: bool, found: seq<Address>): (r: Net)
    ensures r.discoveries == n.discoveries + 1
    ensures r.data == n.data && r.discovery == n.discovery && r.pollInterval == n.pollInterval
    ensures running ==> r.remotes == n.remotes && !r.polling.Armed?
    ensures !running ==> r.remotes == found && r.polling == Armed(0, n.pollInterval)
  {
    var cancelled := n.(polling := Cancel(n.polling), discoveries := n.discoveries + 1);
    if running then cancelled
    else cancelled.(remotes := found, polling := Armed(0, n.pollInterval))
  }

  /** A call that finds discovery running leaves nothing behind that the
      running discovery's own completion depends on: the device set it ends
      with is the one it found, with polling rescheduled once. */
  lemma ReentrantDiscover(n: Net, ignored: seq<Address>, found: seq<Address>)
    ensures Discover(Discover(n, true, ignored), false, found)
         == Discover(n, false, found).(discoveries := n.discoveries + 2)
  {
  }

  /** The constructor, after the link is open: one discovery, then the
      discovery timer with its first run one full period away. */
  function Start(pollInterval: int, discoverInterval: int, running: bool, found: seq<Address>): (r: Net)
    ensures r.data == [] && r.discoveries == 1
    ensures r.discovery == Armed(discoverInterval, discoverInterval)
    ensures !running ==> r.remotes == found && r.polling == Armed(0, pollInterval)
    ensures running ==> r.remotes == [] && r.polling == Unscheduled
  {
    Discover(Net([], [], Unscheduled, Unscheduled, pollInterval, 0), running, found)
      .(discovery := Armed(discoverInterval, discoverInterval))
  }

  /** `pollNodes()`: clear `data`, run the pass, and on a timeout or drift
      cancel polling and call `discover()` once. An unchecked exception
      kills the polling timer's thread, which then never fires again. */
  function PollNodes(n: Net, own: Address, outcomes: seq<DeviceOutcome>, running: bool, found: seq<Address>): (r: Net)
    requires |outcomes| == |n.remotes|
    ensures r.data == Pass(n.remotes, own, outcomes).lines
    ensures r.discovery == n.discovery && r.pollInterval == n.pollInterval
    ensures r.discoveries == n.discoveries + (if Pass(n.remotes, own, outcomes).end.Rediscover? then 1 else 0)
    ensures Pass(n.remotes, own, outcomes).end.Completed? ==> r.remotes == n.remotes && r.polling == n.polling
    ensures Pass(n.remotes, own, outcomes).end.Crashed? ==> r.remotes == n.remotes && !r.polling.Armed?
    ensures Pass(n.remotes, own, outcomes).end.Rediscover? ==>
      && (running ==> r.remotes == n.remotes && !r.polling.Armed?)
      && (!running ==> r.remotes == found && r.polling == Armed(0, n.pollInterval))
  {
    var pass := Pass(n.remotes, own, outcomes);
    var cleared := n.(data := pass.lines);
    match pass.end
    case Completed => cleared
    case Rediscover(_, _) => Discover(cleared.(polling := Cancel(cleared.polling)), running, found)
    case Crashed(_) => cleared.(polling := Cancel(cleared.polling))
  }

  /** A timeout at device `k` after no earlier stop: `discover()` runs once,
      the lines of the devices before `k` stay in `data`, and with no
      discovery already running the remotes become the new discovery result. */
  lemma TimeoutRediscovers(n: Net, own: Address, outcomes: seq<DeviceOutcome>, running: bool, found: seq<Address>, k: nat)
    requires |outcomes| == |n.remotes| && k < |n.remotes|
    requires forall j :: 0 <= j < k ==> !Stops(n.remotes, own, outcomes[j])
    requires outcomes[k].TimedOut?
    ensures var r := PollNodes(n, own, outcomes, running, found);
      && r.discoveries == n.discoveries + 1
      && r.data == OkLines(n.remotes, outcomes, 0, k)
      && (!running ==> r.remotes == found && r.polling == Armed(0, n.pollInterval))
      && (running ==> r.remotes == n.remotes && !r.polling.Armed?)
  {
    VisitCharacterised(n.remotes, own, outcomes, 0);
  }

  /** A neighbour outside the remotes at device `k`, after no earlier stop:
      the pass aborts there without that device's line, `discover()` runs
      once, and with no discovery already running the remotes become the
      new discovery result. */
  lemma DriftRediscovers(n: Net, own: Address, outcomes: seq<DeviceOutcome>, running: bool, found: seq<Address>, k: nat)
    requires |outcomes| == |n.remotes| && k < |n.remotes|
    requires forall j :: 0 <= j < k ==> !Stops(n.remotes, own, outcomes[j])
    requires outcomes[k].Ok? && OrderEnumerates(outcomes[k].reading.table, outcomes[k].reading.order)
    requires exists a :: a in outcomes[k].reading.table && Drifts(n.remotes, own, a)
    ensures var r := PollNodes(n, own, outcomes, running, found);
      && r.discoveries == n.discoveries + 1
      && r.data == OkLines(n.remotes, outcomes, 0, k)
      && (!running ==> r.remotes == found && r.polling == Armed(0, n.pollInterval))
      && (running ==> r.remotes == n.remotes && !r.polling.Armed?)
  {
    DriftAborts(n.remotes, own, outcomes, k);
  }

  /** A probe whose neighbour refresh timed out or failed is still a
      successful device: `refresh` catches those exceptions itself, so only
      an escaping index exception reaches the pass. `order` is the iteration
      order of `getNeighbors()`, which visits every key of the fetched table
      once. */
  function Probe(adc0: int, adc1: int, dio3High: bool, rssi: JByte, refresh: RefreshResult, order: seq<Address>): (o: DeviceOutcome)
    requires !refresh.end.Exhausted?
    requires OrderEnumerates(refresh.table, order)
    ensures o.Unchecked? <==> refresh.end.Escaped?
    ensures o.Ok? ==> o.reading.adc0 == adc0 && o.reading.adc1 == adc1
    ensures o.Ok? ==> o.reading.dio3High == dio3High && o.reading.rssi == rssi
    ensures o.Ok? ==> o.reading.table == refresh.table
    ensures o.Ok? ==> OrderEnumerates(o.reading.table, o.reading.order)
  {
    if refresh.end.Escaped? then Unchecked
    else Ok(Reading(adc0, adc1, dio3High, rssi, refresh.table, order))
  }

  /** The line a successful probe produces: the converted analog values, the
      motion flag and RSSI that were read, then pairs naming exactly the
      fetched neighbours, each beside its stored link quality. */
  lemma ProbeLine(address: Address, adc0: int, adc1: int, dio3High: bool, rssi: JByte,
                  refresh: RefreshResult, order: seq<Address>)
    requires !refresh.end.Exhausted? && !refresh.end.Escaped? && OrderEnumerates(refresh.table, order)
    ensures var o := Probe(adc0, adc1, dio3High, rssi, refresh, order);
      && o.Ok?
      && var line := DeviceLine(address, o.reading);
      && |line| == 5 + 2 * |order|
      && line[1] == RealToken(Temperature(adc0)) && line[2] == RealToken(Light(adc1))
      && line[3] == IntToken(if dio3High then 1 else 0) && line[4] == IntToken(rssi)
      && (forall j :: 0 <= j < |order| ==> line[5 + 2 * j].AddressToken? && line[5 + 2 * j].address in refresh.table)
      && (forall a :: a in refresh.table ==>
            exists j :: 0 <= j < |order| && line[5 + 2 * j] == AddressToken(a)
                        && line[6 + 2 * j] == IntToken(refresh.table[a]))
  {
    var o := Probe(adc0, adc1, dio3High, rssi, refresh, order);
    var line := DeviceLine(address, o.reading);
    forall j | 0 <= j < |order|
      ensures line[5 + 2 * j].AddressToken? && line[5 + 2 * j].address in refresh.table
    {
      assert line[5..][2 * j] == line[5 + 2 * j];
      assert order[j] in order;
    }
    forall a | a in refresh.table
      ensures exists j :: 0 <= j < |order| && line[5 + 2 * j] == AddressToken(a)
                          && line[6 + 2 * j] == IntToken(refresh.table[a])
    {
      LineListsEveryNeighbour(address, o.reading, a);
    }
  }

  /** The Java text of each token of a line. */
  function TokenTexts(line: seq<Token>, show: Token -> string): (texts: seq<string>)
    ensures |texts| == |line|
    ensures forall i :: 0 <= i < |line| ==> texts[i] == show(line[i])
  {
    seq(|line|, i requires 0 <= i < |line| => show(line[i]))
  }

  /** The text a data line becomes: every token followed by one space. */
  function RenderLine(line: seq<Token>, show: Token -> string): (s: string)
    ensures s == "" <==> |line| == 0
    ensures |line| > 0 ==> s[|s| - 1] == ' '
    ensures |line| > 0 ==> |show(line[0])| < |s| && s[..|show(line[0])|] == show(line[0])
  {
    JoinTerminated(TokenTexts(line, show), ' ')
  }

  /** The text of every line of `data`. */
  function RenderedLines(data: seq<seq<Token>>, show: Token -> string): (lines: seq<string>)
    ensures |lines| == |data|
    ensures forall k :: 0 <= k < |data| ==> lines[k] == RenderLine(data[k], show)
  {
    seq(|data|, k requires 0 <= k < |data| => RenderLine(data[k], show))
  }

  /** `toString()`: each line of `data` followed by a newline. */
  function ToString(n: Net, show: Token -> string): (s: string)
    ensures s == "" <==> |n.data| == 0
    ensures |n.data| > 0 ==> s[|s| - 1] == '\n'
    ensures |n.data| > 0 ==>
      |RenderLine(n.data[0], show)| < |s| && s[..|RenderLine(n.data[0], show)|] == RenderLine(n.data[0], show)
  {
    JoinTerminated(RenderedLines(n.data, show), '\n')
  }

  /** Splitting a rendered line on spaces gives back each token's text, as
      long as no token renders empty or with a space. */
  lemma RenderLineSplit(line: seq<Token>, show: Token -> string)
    requires |line| > 0
    requires forall t :: show(t) != "" && ' ' !in show(t)
    ensures JavaSplit(RenderLine(line, show), ' ') == TokenTexts(line, show)
  {
    SplitJoinTerminated(TokenTexts(line, show), ' ');
  }

  /** Splitting `toString()` on newlines gives back the rendered lines when
      no token's text holds a newline; an empty `data` gives "". */
  lemma ToStringSplit(n: Net, show: Token -> string)
    requires forall k :: 0 <= k < |n.data| ==> |n.data[k]| > 0
    requires forall t :: '\n' !in show(t)
    ensures |n.data| == 0 ==> ToString(n, show) == ""
    ensures |n.data| > 0 ==> JavaSplit(ToString(n, show), '\n') == RenderedLines(n.data, show)
  {
    var lines := RenderedLines(n.data, show);
    forall k | 0 <= k < |lines|
      ensures '\n' !in lines[k] && lines[k] != ""
    {
      NoCharInJoin(TokenTexts(n.data[k], show), ' ', '\n');
    }
    SplitJoinTerminated(lines, '\n');
  }

  lemma {:induction false} NoCharInJoin(parts: seq<string>, sep: char, c: char)
    requires sep != c
    requires forall k :: 0 <= k < |parts| ==> c !in parts[k]
    ensures c !in JoinTerminated(parts, sep)
  {
    if |parts| > 0 {
      NoCharInJoin(parts[1..], sep, c);
      assert JoinTerminated(parts, sep) == parts[0] + [sep] + JoinTerminated(parts[1..], sep);
    }
  }
}
