/**
 * The running exporter of build/main.py: the module-level `DEVICES` dict and
 * the seen counter, updated in place by `main()` (build/main.py:68-95) and
 * driven by the `while True` loop (build/main.py:101-113).
 */
module Scanner {
  import opened Metrics
  import opened Presence
  import opened PresenceFacts
  import opened Report

  class BleScanner {
    /** `DEVICES`, keyed by address. */
    var devices: map<string, DeviceRecord>
    /** The insertion order of `DEVICES`' keys, which the report's stable sort keeps among equal timestamps. */
    var order: seq<string>
    /** `DEVICE_SEEN_TOTAL`, one series per (address, name). */
    var seenTotal: Counter

    function State(): Registry
      reads this
    {
      Registry(devices, order, seenTotal)
    }

    ghost predicate Valid()
      reads this
    {
      Presence.Valid(State())
    }

    /** Process start: `DEVICES = {}` and a fresh counter. */
    constructor ()
      ensures Valid() && State() == Empty
    {
      devices, order, seenTotal := map[], [], map[];
      EmptyIsValid();
    }

    /** One `main()`: fold the scan into the registry; say how the call ended. */
    method ScanCycle(scan: ScanResult, now: nat) returns (outcome: CycleOutcome)
      requires Valid()
      modifies this
      ensures Valid()
      ensures CycleResult(State(), outcome) == Cycle(old(State()), scan, now)
    {
      if scan.DiscoveryFailed? {
        return Raised(DiscoveryError);
      }
      var devs := scan.devices;
      var i := 0;
      while i < |devs|
        invariant i <= |devs|
        invariant forall j :: 0 <= j < i ==> AddressType(devs[j]).Some?
        invariant State() == ApplyAll(old(State()), devs[..i], now)
      {
        var d := devs[i];
        ghost var before := State();
        ApplyAllNext(old(State()), devs, i, now);
        if AddressTypeKey !in d.details.props {
          assert FirstMissing(devs) == i;
          CyclePreservesValid(old(State()), scan, now);
          return Raised(MissingAddressType(i));
        }
        if d.details.props[AddressTypeKey] == RandomAddress {
          i := i + 1;
          continue;
        }
        Accept(d, now);
        assert State() == Upsert(before, d, now);
        i := i + 1;
      }
      assert devs[..|devs|] == devs;
      CyclePreservesValid(old(State()), scan, now);
      outcome := Completed;
    }

    /** Lines 77-95 for a device that passed the filter: count it, then create or update its record. */
    method Accept(d: Observation, now: nat)
      modifies this
      ensures State() == Upsert(old(State()), d, now)
    {
      var series := (d.address, d.name);
      seenTotal := seenTotal[series := (if series in seenTotal then seenTotal[series] else 0) + 1];
      if d.address !in devices {
        devices := devices[d.address := DeviceRecord(d.address, d.name, d.details, now, now, 1)];
        order := order + [d.address];
      } else {
        var rec := devices[d.address];
        devices := devices[d.address := rec.(lastSeen := now, seen := rec.seen + 1)];
      }
    }

    /**
     * The first |ticks| turns of the outer loop: each runs a cycle, absorbs
     * whatever it raised, and produces the report of the registry after it.
     */
    method Run(ticks: seq<Tick>) returns (outcomes: seq<CycleOutcome>, reports: seq<ScanReport>)
      requires Valid()
      modifies this
      ensures Valid()
      ensures State() == RunCycles(old(State()), ticks)
      ensures outcomes == Outcomes(old(State()), ticks)
      ensures reports == Reports(old(State()), ticks)
    {
      outcomes, reports := [], [];
      var i := 0;
      while i < |ticks|
        invariant i <= |ticks|
        invariant Valid()
        invariant State() == RunCycles(old(State()), ticks[..i])
        invariant outcomes == Outcomes(old(State()), ticks[..i])
        invariant reports == Reports(old(State()), ticks[..i])
      {
        RunCyclesNext(old(State()), ticks, i);
        assert ticks[..i + 1][..i] == ticks[..i];
        var outcome := ScanCycle(ticks[i].scan, ticks[i].now);
        assert State() == RunCycles(old(State()), ticks[..i + 1]);
        ReportListsEveryDevice(State());
        var report := ReportOf(State());
        outcomes := outcomes + [outcome];
        reports := reports + [report];
        i := i + 1;
      }
      assert ticks[..|ticks|] == ticks;
    }
  }
}
