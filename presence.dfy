/**
 * The device presence registry of build/main.py: the global dict `DEVICES`
 * (address -> record), the seen counter, and the fold of one discovery result
 * into both (`main()`, build/main.py:68-95), as functions on values. The
 * class in module Scanner performs the same updates in place and is proved
 * against these functions.
 */
module Presence {
  import opened Wrappers
  import opened Metrics

  /** `d.details` of a discovered device: its object path and BlueZ property bag. */
  datatype Details = Details(path: string, props: map<string, string>)

  /** One element of the list `BleakScanner.discover()` returns. */
  datatype Observation = Observation(address: string, name: string, details: Details)

  /** What one call of the discovery provider gives: a failure, or the devices seen. */
  datatype ScanResult = DiscoveryFailed | Discovered(devices: seq<Observation>)

  /** The dict stored in `DEVICES[address]` (build/main.py:83-90). */
  datatype DeviceRecord = DeviceRecord(
    address: string,
    name: string,
    details: Details,
    firstSeen: nat,
    lastSeen: nat,
    seen: nat)

  /**
   * The state `main()` works on: the records, the insertion order of their
   * keys (the iteration order of the Python dict), and the seen counter.
   */
  datatype Registry = Registry(devices: map<string, DeviceRecord>, order: seq<string>, counter: Counter)

  /** Why a cycle ended early: discovery raised, or device `index` had no `AddressType`. */
  datatype Fault = DiscoveryError | MissingAddressType(index: nat)

  datatype CycleOutcome = Completed | Raised(fault: Fault)

  datatype CycleResult = CycleResult(registry: Registry, outcome: CycleOutcome)

  /** One turn of the outer loop: what discovery gave, and the clock reading. */
  datatype Tick = Tick(scan: ScanResult, now: nat)

  const AddressTypeKey := "AddressType"
  const RandomAddress := "random"

  /** The state at process start: `DEVICES = {}` and a counter with no series. */
  const Empty := Registry(map[], [], map[])

  /** `d.details["props"]["AddressType"]`, or None where the key is missing (a KeyError). */
  function AddressType(d: Observation): (t: Option<string>)
    ensures t.Some? <==> AddressTypeKey in d.details.props
    ensures t.Some? ==> t.value == d.details.props[AddressTypeKey]
  {
    if AddressTypeKey in d.details.props then Some(d.details.props[AddressTypeKey]) else None
  }

  /** The filter of build/main.py:74: a device whose address type is exactly "random". */
  predicate IsRandom(d: Observation)
    ensures IsRandom(d) <==>
      AddressTypeKey in d.details.props && d.details.props[AddressTypeKey] == RandomAddress
  {
    AddressType(d) == Some(RandomAddress)
  }

  /** A device that passes the filter and reaches the counter and the upsert. */
  predicate Accepted(d: Observation)
    ensures Accepted(d) <==>
      AddressTypeKey in d.details.props && d.details.props[AddressTypeKey] != RandomAddress
  {
    AddressType(d).Some? && !IsRandom(d)
  }

  /** The seen count of address `a`, 0 for an address with no record. */
  function SeenOf(r: Registry, a: string): nat {
    if a in r.devices then r.devices[a].seen else 0
  }

  /**
   * The registry invariant: each record sits under its own address and has
   * been seen at least once, `order` lists every key exactly once, and for
   * every address the counter series of all its names add up to its seen count.
   */
  ghost predicate Valid(r: Registry) {
    && (forall a :: a in r.devices ==> r.devices[a].address == a && r.devices[a].seen >= 1)
    && Keyed(r)
    && (forall a :: AddressTotal(r.counter, a) == SeenOf(r, a))
  }

  /** The insertion order lists every key of the registry exactly once. */
  ghost predicate Keyed(r: Registry) {
    (forall a :: a in r.order <==> a in r.devices) && Distinct(r.order)
  }

  /** Every record's timestamps are ordered and none lies after `t`. */
  ghost predicate Clocked(r: Registry, t: nat) {
    forall a :: a in r.devices ==> r.devices[a].firstSeen <= r.devices[a].lastSeen <= t
  }

  /** The counter increment and the create-or-update of one accepted device (build/main.py:77-95). */
  function Upsert(r: Registry, d: Observation, now: nat): (r': Registry)
    ensures r'.devices.Keys == r.devices.Keys + {d.address}
    ensures forall b :: b != d.address && b in r.devices ==> r'.devices[b] == r.devices[b]
    ensures d.address !in r.devices ==>
      r'.devices[d.address] == DeviceRecord(d.address, d.name, d.details, now, now, 1)
      && r'.order == r.order + [d.address]
    ensures d.address in r.devices ==>
      var old_ := r.devices[d.address];
      r'.devices[d.address] == old_.(lastSeen := now, seen := old_.seen + 1)
      && r'.order == r.order
    ensures CountOf(r'.counter, (d.address, d.name)) == CountOf(r.counter, (d.address, d.name)) + 1
    ensures forall l :: l != (d.address, d.name) ==> CountOf(r'.counter, l) == CountOf(r.counter, l)
  {
    var counter := Inc(r.counter, (d.address, d.name));
    if d.address !in r.devices then
      Registry(r.devices[d.address := DeviceRecord(d.address, d.name, d.details, now, now, 1)],
               r.order + [d.address], counter)
    else
      var rec := r.devices[d.address];
      Registry(r.devices[d.address := rec.(lastSeen := now, seen := rec.seen + 1)], r.order, counter)
  }

  /** The loop body of build/main.py:70-95 for a device that has an `AddressType`. */
  function Step(r: Registry, d: Observation, now: nat): (r': Registry)
    ensures !Accepted(d) ==> r' == r
    ensures Accepted(d) ==> SeenOf(r', d.address) == SeenOf(r, d.address) + 1
  {
    if Accepted(d) then Upsert(r, d, now) else r
  }

  /**
   * The number of devices `main()` handles before one without an `AddressType`
   * raises: the index of the first such device, or the whole list.
   */
  function FirstMissing(devs: seq<Observation>): (k: nat)
    ensures k <= |devs|
    ensures forall j :: 0 <= j < k ==> AddressType(devs[j]).Some?
    ensures k < |devs| ==> AddressType(devs[k]).None?
  {
    if devs == [] || AddressType(devs[0]).None? then 0 else 1 + FirstMissing(devs[1..])
  }

  /** The devices of one scan whose loop body runs to its end. */
  function Processed(scan: ScanResult): seq<Observation> {
    match scan
    case DiscoveryFailed => []
    case Discovered(devs) => devs[..FirstMissing(devs)]
  }

  /**
   * The loop of build/main.py:70-95 over `devs`, in order, each at time `now`,
   * for devices that all have an `AddressType`. `Step` skips a device without
   * the key, where the source raises; `Cycle` only passes `Processed` devices,
   * which stop before the first such device.
   */
  function ApplyAll(r: Registry, devs: seq<Observation>, now: nat): (r': Registry)
    ensures r.devices.Keys <= r'.devices.Keys
    ensures r.order <= r'.order
    decreases |devs|
  {
    if devs == [] then r
    else Step(ApplyAll(r, devs[..|devs| - 1], now), devs[|devs| - 1], now)
  }

  /** One call of `main()` as the outer loop sees it: the new state and whether it raised. */
  function Cycle(r: Registry, scan: ScanResult, now: nat): (res: CycleResult)
    ensures res.registry == ApplyAll(r, Processed(scan), now)
    ensures scan.DiscoveryFailed? ==> res == CycleResult(r, Raised(DiscoveryError))
    ensures scan.Discovered? ==>
      (res.outcome == Completed <==> forall j :: 0 <= j < |scan.devices| ==> AddressType(scan.devices[j]).Some?)
    ensures res.outcome.Raised? && res.outcome.fault.MissingAddressType? ==>
      var k := res.outcome.fault.index;
      && scan.Discovered?
      && k < |scan.devices|
      && AddressType(scan.devices[k]).None?
      && (forall j :: 0 <= j < k ==> AddressType(scan.devices[j]).Some?)
      && res.registry == ApplyAll(r, scan.devices[..k], now)
  {
    match scan
    case DiscoveryFailed => CycleResult(r, Raised(DiscoveryError))
    case Discovered(devs) =>
      var k := FirstMissing(devs);
      CycleResult(ApplyAll(r, devs[..k], now),
                  if k < |devs| then Raised(MissingAddressType(k)) else Completed)
  }

  /**
   * The outer `while True` loop (build/main.py:101-113) after the given ticks:
   * every exception is absorbed, so each tick contributes its cycle's state.
   */
  function RunCycles(r: Registry, ticks: seq<Tick>): Registry
    decreases |ticks|
  {
    if ticks == [] then r
    else
      var last := ticks[|ticks| - 1];
      Cycle(RunCycles(r, ticks[..|ticks| - 1]), last.scan, last.now).registry
  }

  /** What each turn of the outer loop raised, in order; `Completed` where nothing was raised. */
  function Outcomes(r: Registry, ticks: seq<Tick>): (os: seq<CycleOutcome>)
    ensures |os| == |ticks|
    decreases |ticks|
  {
    if ticks == [] then []
    else
      var init, last := ticks[..|ticks| - 1], ticks[|ticks| - 1];
      Outcomes(r, init) + [Cycle(RunCycles(r, init), last.scan, last.now).outcome]
  }

  /** The number of accepted devices with address `a` in `devs`. */
  function CountAccepted(devs: seq<Observation>, a: string): nat
    decreases |devs|
  {
    if devs == [] then 0
    else
      var d := devs[|devs| - 1];
      CountAccepted(devs[..|devs| - 1], a) + (if Accepted(d) && d.address == a then 1 else 0)
  }

  /** The number of accepted devices labelled `l` in `devs`. */
  function CountLabel(devs: seq<Observation>, l: Label): nat
    decreases |devs|
  {
    if devs == [] then 0
    else
      var d := devs[|devs| - 1];
      CountLabel(devs[..|devs| - 1], l) + (if Accepted(d) && (d.address, d.name) == l then 1 else 0)
  }

  /** The number of accepted devices with address `a` over all cycles of `ticks`. */
  function AcceptedInRun(ticks: seq<Tick>, a: string): nat
    decreases |ticks|
  {
    if ticks == [] then 0
    else AcceptedInRun(ticks[..|ticks| - 1], a) + CountAccepted(Processed(ticks[|ticks| - 1].scan), a)
  }

  /** The first accepted device with address `a` in `devs`. */
  function FirstAccepted(devs: seq<Observation>, a: string): (d: Observation)
    requires CountAccepted(devs, a) > 0
    ensures Accepted(d) && d.address == a
    ensures exists i :: 0 <= i < |devs| && devs[i] == d && CountAccepted(devs[..i], a) == 0
    decreases |devs|
  {
    var init := devs[..|devs| - 1];
    if CountAccepted(init, a) > 0 then
      var d := FirstAccepted(init, a);
      assert exists i :: 0 <= i < |devs| && devs[i] == d && CountAccepted(devs[..i], a) == 0 by {
        var i :| 0 <= i < |init| && init[i] == d && CountAccepted(init[..i], a) == 0;
        assert devs[..i] == init[..i];
        assert devs[i] == d;
      }
      d
    else
      assert devs[..|devs| - 1] == init;
      devs[|devs| - 1]
  }

  /** The clock readings of `ticks` never go back and start no earlier than `t`. */
  ghost predicate Monotone(ticks: seq<Tick>, t: nat) {
    (forall i :: 0 <= i < |ticks| ==> t <= ticks[i].now)
    && (forall i, j :: 0 <= i < j < |ticks| ==> ticks[i].now <= ticks[j].now)
  }
}
