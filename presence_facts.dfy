/**
 * What the scan loop of build/main.py guarantees about the registry, proved
 * about the functions of module Presence: the invariant is kept, seen counts
 * are counts of accepted sightings, records are never lost or rewritten,
 * timestamps stay ordered, and random-address devices have no effect.
 */
module PresenceFacts {
  import opened Metrics
  import opened Presence

  /** `r'` is `r` after more sightings: no key lost, the key order only extended,
      and every record keeps its identity, first sighting and name. */
  ghost predicate Extends(r: Registry, r': Registry) {
    && r.devices.Keys <= r'.devices.Keys
    && r.order <= r'.order
    && forall a :: a in r.devices ==>
         && r'.devices[a].address == r.devices[a].address
         && r'.devices[a].name == r.devices[a].name
         && r'.devices[a].details == r.devices[a].details
         && r'.devices[a].firstSeen == r.devices[a].firstSeen
         && r'.devices[a].seen >= r.devices[a].seen
  }

  /** One more device of the scan is one more step of the fold. */
  lemma ApplyAllNext(r: Registry, devs: seq<Observation>, i: nat, now: nat)
    requires i < |devs|
    ensures ApplyAll(r, devs[..i + 1], now) == Step(ApplyAll(r, devs[..i], now), devs[i], now)
  {
    assert devs[..i + 1][..i] == devs[..i];
  }

  lemma UpsertPreservesValid(r: Registry, d: Observation, now: nat)
    requires Valid(r)
    ensures Valid(Upsert(r, d, now))
  {
    var r' := Upsert(r, d, now);
    forall a ensures AddressTotal(r'.counter, a) == SeenOf(r', a) {
      AddressTotalInc(r.counter, (d.address, d.name), a);
    }
  }

  lemma {:induction false} ApplyAllPreservesValid(r: Registry, devs: seq<Observation>, now: nat)
    requires Valid(r)
    ensures Valid(ApplyAll(r, devs, now))
    decreases |devs|
  {
    if devs != [] {
      var mid := ApplyAll(r, devs[..|devs| - 1], now);
      ApplyAllPreservesValid(r, devs[..|devs| - 1], now);
      if Accepted(devs[|devs| - 1]) {
        UpsertPreservesValid(mid, devs[|devs| - 1], now);
      }
    }
  }

  /** Every cycle, whatever its outcome, leaves a valid registry valid. */
  lemma CyclePreservesValid(r: Registry, scan: ScanResult, now: nat)
    requires Valid(r)
    ensures Valid(Cycle(r, scan, now).registry)
  {
    ApplyAllPreservesValid(r, Processed(scan), now);
  }

  /** The invariant holds at start and after any number of cycles. */
  lemma {:induction false} RunPreservesValid(r: Registry, ticks: seq<Tick>)
    requires Valid(r)
    ensures Valid(RunCycles(r, ticks))
    decreases |ticks|
  {
    if ticks != [] {
      RunPreservesValid(r, ticks[..|ticks| - 1]);
      var last := ticks[|ticks| - 1];
      CyclePreservesValid(RunCycles(r, ticks[..|ticks| - 1]), last.scan, last.now);
    }
  }

  lemma EmptyIsValid()
    ensures Valid(Empty)
  {
  }

  /** Each accepted device of a cycle adds exactly one to the seen count of its address. */
  lemma {:induction false} ApplyAllSeen(r: Registry, devs: seq<Observation>, now: nat, a: string)
    ensures SeenOf(ApplyAll(r, devs, now), a) == SeenOf(r, a) + CountAccepted(devs, a)
    decreases |devs|
  {
    if devs != [] {
      ApplyAllSeen(r, devs[..|devs| - 1], now, a);
    }
  }

  /** Each accepted device of a cycle adds exactly one to its (address, name) series. */
  lemma {:induction false} ApplyAllCounter(r: Registry, devs: seq<Observation>, now: nat, l: Label)
    ensures CountOf(ApplyAll(r, devs, now).counter, l) == CountOf(r.counter, l) + CountLabel(devs, l)
    decreases |devs|
  {
    if devs != [] {
      ApplyAllCounter(r, devs[..|devs| - 1], now, l);
    }
  }

  /** An address with no accepted device in the cycle keeps its record, or its absence. */
  lemma {:induction false} ApplyAllUntouched(r: Registry, devs: seq<Observation>, now: nat, a: string)
    requires CountAccepted(devs, a) == 0
    ensures a in ApplyAll(r, devs, now).devices <==> a in r.devices
    ensures a in r.devices ==> ApplyAll(r, devs, now).devices[a] == r.devices[a]
    decreases |devs|
  {
    if devs != [] {
      ApplyAllUntouched(r, devs[..|devs| - 1], now, a);
    }
  }

  /**
   * An address accepted at least once in the cycle ends with last_seen = now.
   * A known address keeps its first sighting, name and details; a new one gets
   * first_seen = now and the name and details of its first accepted device.
   */
  lemma {:induction false} ApplyAllTouched(r: Registry, devs: seq<Observation>, now: nat, a: string)
    requires CountAccepted(devs, a) > 0
    ensures a in ApplyAll(r, devs, now).devices
    ensures ApplyAll(r, devs, now).devices[a].lastSeen == now
    ensures a in r.devices ==>
      var rec, rec' := r.devices[a], ApplyAll(r, devs, now).devices[a];
      rec'.firstSeen == rec.firstSeen && rec'.name == rec.name && rec'.details == rec.details
      && rec'.address == rec.address
    ensures a !in r.devices ==>
      var rec', d := ApplyAll(r, devs, now).devices[a], FirstAccepted(devs, a);
      rec'.firstSeen == now && rec'.name == d.name && rec'.details == d.details && rec'.address == a
    decreases |devs|
  {
    var init := devs[..|devs| - 1];
    if CountAccepted(init, a) > 0 {
      ApplyAllTouched(r, init, now, a);
    } else {
      ApplyAllUntouched(r, init, now, a);
    }
  }

  /** A cycle never deletes a record and never rewrites a record's identity, name or first sighting. */
  lemma {:induction false} ApplyAllExtends(r: Registry, devs: seq<Observation>, now: nat)
    ensures Extends(r, ApplyAll(r, devs, now))
    decreases |devs|
  {
    if devs != [] {
      ApplyAllExtends(r, devs[..|devs| - 1], now);
    }
  }

  /** Keys of the registry only ever grow, in insertion order, across any run of cycles. */
  lemma {:induction false} RunExtends(r: Registry, ticks: seq<Tick>)
    ensures Extends(r, RunCycles(r, ticks))
    decreases |ticks|
  {
    if ticks != [] {
      var mid := RunCycles(r, ticks[..|ticks| - 1]);
      var last := ticks[|ticks| - 1];
      RunExtends(r, ticks[..|ticks| - 1]);
      ApplyAllExtends(mid, Processed(last.scan), last.now);
    }
  }

  /** One more tick of the loop is one more cycle. */
  lemma RunCyclesNext(r: Registry, ticks: seq<Tick>, i: nat)
    requires i < |ticks|
    ensures RunCycles(r, ticks[..i + 1]) == Cycle(RunCycles(r, ticks[..i]), ticks[i].scan, ticks[i].now).registry
  {
    assert ticks[..i + 1][..i] == ticks[..i];
  }

  /** Entry i of the outcomes is what cycle i raised, run on the state the first i cycles left. */
  lemma {:induction false} OutcomesAt(r: Registry, ticks: seq<Tick>, i: nat)
    requires i < |ticks|
    ensures Outcomes(r, ticks)[i] == Cycle(RunCycles(r, ticks[..i]), ticks[i].scan, ticks[i].now).outcome
    decreases |ticks|
  {
    var init := ticks[..|ticks| - 1];
    if i < |init| {
      OutcomesAt(r, init, i);
      assert init[..i] == ticks[..i];
    } else {
      assert init == ticks[..i];
    }
  }

  /** Over a run, the seen count of an address grows by its accepted sightings, and by nothing else. */
  lemma {:induction false} RunSeen(r: Registry, ticks: seq<Tick>, a: string)
    ensures SeenOf(RunCycles(r, ticks), a) == SeenOf(r, a) + AcceptedInRun(ticks, a)
    decreases |ticks|
  {
    if ticks != [] {
      var mid := RunCycles(r, ticks[..|ticks| - 1]);
      var last := ticks[|ticks| - 1];
      RunSeen(r, ticks[..|ticks| - 1], a);
      ApplyAllSeen(mid, Processed(last.scan), last.now, a);
    }
  }

  /**
   * From process start, an address has a record exactly when it was accepted
   * at least once, and its seen count is the number of times it was accepted.
   */
  lemma SeenFromStart(ticks: seq<Tick>, a: string)
    ensures a in RunCycles(Empty, ticks).devices <==> AcceptedInRun(ticks, a) > 0
    ensures a in RunCycles(Empty, ticks).devices ==>
      RunCycles(Empty, ticks).devices[a].seen == AcceptedInRun(ticks, a)
  {
    RunSeen(Empty, ticks, a);
    EmptyIsValid();
    RunPreservesValid(Empty, ticks);
  }

  /** A non-empty run is the run of all but its last tick, then that tick's cycle. */
  lemma RunCyclesLast(r: Registry, ticks: seq<Tick>)
    requires ticks != []
    ensures RunCycles(r, ticks) ==
      Cycle(RunCycles(r, ticks[..|ticks| - 1]), ticks[|ticks| - 1].scan, ticks[|ticks| - 1].now).registry
  {
  }

  /** Running `xs` and then `ys` is running their concatenation. */
  lemma {:induction false} RunAppend(r: Registry, xs: seq<Tick>, ys: seq<Tick>)
    ensures RunCycles(r, xs + ys) == RunCycles(RunCycles(r, xs), ys)
    decreases |ys|
  {
    if ys == [] {
      assert xs + ys == xs;
    } else {
      var zs, init, last := xs + ys, ys[..|ys| - 1], ys[|ys| - 1];
      assert zs[..|zs| - 1] == xs + init;
      assert zs[|zs| - 1] == last;
      RunAppend(r, xs, init);
      RunCyclesLast(r, zs);
      RunCyclesLast(RunCycles(r, xs), ys);
    }
  }

  /**
   * After a run, an address's last_seen is the clock reading of the last cycle
   * that accepted it.
   */
  lemma {:induction false} RunLastSeen(r: Registry, ticks: seq<Tick>, a: string, i: nat)
    requires i < |ticks| && CountAccepted(Processed(ticks[i].scan), a) > 0
    requires forall j :: i < j < |ticks| ==> CountAccepted(Processed(ticks[j].scan), a) == 0
    ensures a in RunCycles(r, ticks).devices
    ensures RunCycles(r, ticks).devices[a].lastSeen == ticks[i].now
    decreases |ticks|
  {
    var init, last := ticks[..|ticks| - 1], ticks[|ticks| - 1];
    var mid := RunCycles(r, init);
    if i == |ticks| - 1 {
      ApplyAllTouched(mid, Processed(last.scan), last.now, a);
    } else {
      assert init[i] == ticks[i];
      assert forall j :: i < j < |init| ==> init[j] == ticks[j];
      RunLastSeen(r, init, a, i);
      ApplyAllUntouched(mid, Processed(last.scan), last.now, a);
    }
  }

  /** A run splits at any point into the run up to it and the run after it. */
  lemma RunSplit(r: Registry, ticks: seq<Tick>, n: nat)
    requires n <= |ticks|
    ensures RunCycles(r, ticks) == RunCycles(RunCycles(r, ticks[..n]), ticks[n..])
  {
    var xs, ys := ticks[..n], ticks[n..];
    assert xs + ys == ticks;
    RunAppend(r, xs, ys);
  }

  /** The cycle that first accepts an address gives it first_seen = now. */
  lemma FirstSeenAt(ticks: seq<Tick>, a: string, i: nat)
    requires i < |ticks| && CountAccepted(Processed(ticks[i].scan), a) > 0
    requires AcceptedInRun(ticks[..i], a) == 0
    ensures a in RunCycles(Empty, ticks[..i + 1]).devices
    ensures RunCycles(Empty, ticks[..i + 1]).devices[a].firstSeen == ticks[i].now
  {
    var before := RunCycles(Empty, ticks[..i]);
    SeenFromStart(ticks[..i], a);
    RunCyclesNext(Empty, ticks, i);
    ApplyAllTouched(before, Processed(ticks[i].scan), ticks[i].now, a);
  }

  /**
   * From process start, an address's first_seen is the clock reading of the
   * first cycle that accepted it, and later cycles never change it.
   */
  lemma RunFirstSeen(ticks: seq<Tick>, a: string, i: nat)
    requires i < |ticks| && CountAccepted(Processed(ticks[i].scan), a) > 0
    requires AcceptedInRun(ticks[..i], a) == 0
    ensures a in RunCycles(Empty, ticks).devices
    ensures RunCycles(Empty, ticks).devices[a].firstSeen == ticks[i].now
  {
    FirstSeenAt(ticks, a, i);
    RunSplit(Empty, ticks, i + 1);
    RunExtends(RunCycles(Empty, ticks[..i + 1]), ticks[i + 1..]);
  }

  lemma {:induction false} ApplyAllClocked(r: Registry, devs: seq<Observation>, t: nat, now: nat)
    requires Clocked(r, t) && t <= now
    ensures Clocked(ApplyAll(r, devs, now), now)
    decreases |devs|
  {
    if devs != [] {
      ApplyAllClocked(r, devs[..|devs| - 1], t, now);
    }
  }

  /** The clock reading of the last tick, or `t` when there was none. */
  function LastNow(ticks: seq<Tick>, t: nat): nat {
    if ticks == [] then t else ticks[|ticks| - 1].now
  }

  /** With a clock that never goes back, first_seen <= last_seen <= now holds for every record. */
  lemma {:induction false} RunClocked(r: Registry, ticks: seq<Tick>, t: nat)
    requires Clocked(r, t) && Monotone(ticks, t)
    ensures Clocked(RunCycles(r, ticks), LastNow(ticks, t))
    decreases |ticks|
  {
    if ticks != [] {
      var init := ticks[..|ticks| - 1];
      var last := ticks[|ticks| - 1];
      assert Monotone(init, t);
      RunClocked(r, init, t);
      assert LastNow(init, t) <= last.now;
      ApplyAllClocked(RunCycles(r, init), Processed(last.scan), LastNow(init, t), last.now);
    }
  }

  /** A random-address device anywhere in a scan changes nothing the others do not. */
  lemma {:induction false} RandomIsInvisible(r: Registry, xs: seq<Observation>, d: Observation, ys: seq<Observation>, now: nat)
    requires IsRandom(d)
    ensures ApplyAll(r, xs + [d] + ys, now) == ApplyAll(r, xs + ys, now)
    decreases |ys|
  {
    if ys == [] {
      assert (xs + [d])[..|xs + [d]| - 1] == xs;
      assert xs + [d] + ys == xs + [d];
      assert xs + ys == xs;
    } else {
      var ys' := ys[..|ys| - 1];
      RandomIsInvisible(r, xs, d, ys', now);
      assert (xs + [d] + ys)[..|xs + [d] + ys| - 1] == xs + [d] + ys';
      assert (xs + ys)[..|xs + ys| - 1] == xs + ys';
    }
  }

  lemma {:induction false} RandomOnlyApply(r: Registry, devs: seq<Observation>, now: nat)
    requires forall j :: 0 <= j < |devs| ==> IsRandom(devs[j])
    ensures ApplyAll(r, devs, now) == r
    decreases |devs|
  {
    if devs != [] {
      RandomOnlyApply(r, devs[..|devs| - 1], now);
    }
  }

  /** A scan that sees only random-address devices completes and changes nothing. */
  lemma RandomOnlyScan(r: Registry, devs: seq<Observation>, now: nat)
    requires forall j :: 0 <= j < |devs| ==> IsRandom(devs[j])
    ensures Cycle(r, Discovered(devs), now) == CycleResult(r, Completed)
  {
    assert FirstMissing(devs) == |devs|;
    assert devs[..|devs|] == devs;
    RandomOnlyApply(r, devs, now);
  }

  /**
   * A device without an `AddressType` ends the cycle: the devices before it
   * keep their updates, and no device from it onwards counts or changes anything.
   */
  lemma AbortedCycle(r: Registry, devs: seq<Observation>, now: nat, a: string)
    requires Cycle(r, Discovered(devs), now).outcome.Raised?
    ensures Cycle(r, Discovered(devs), now).outcome.fault.MissingAddressType?
    ensures
      var k := Cycle(r, Discovered(devs), now).outcome.fault.index;
      var r' := Cycle(r, Discovered(devs), now).registry;
      && SeenOf(r', a) == SeenOf(r, a) + CountAccepted(devs[..k], a)
      && (CountAccepted(devs[..k], a) == 0 ==>
            (a in r'.devices <==> a in r.devices) && (a in r.devices ==> r'.devices[a] == r.devices[a]))
  {
    var k := Cycle(r, Discovered(devs), now).outcome.fault.index;
    ApplyAllSeen(r, devs[..k], now, a);
    if CountAccepted(devs[..k], a) == 0 {
      ApplyAllUntouched(r, devs[..k], now, a);
    }
  }

  /**
   * The device "AA:BB:CC:DD:EE:FF" with a public address, named "dev1", seen in
   * two cycles, ends with one record, seen twice, still named "dev1".
   */
  lemma SameDeviceTwoCycles(details: Details)
    requires details.props == map[AddressTypeKey := "public"]
    ensures
      var d := Observation("AA:BB:CC:DD:EE:FF", "dev1", details);
      var r := RunCycles(Empty, [Tick(Discovered([d]), 10), Tick(Discovered([d]), 30)]);
      && r.devices.Keys == {d.address}
      && r.devices[d.address] == DeviceRecord(d.address, "dev1", details, 10, 30, 2)
      && CountOf(r.counter, (d.address, "dev1")) == 2
  {
    var d := Observation("AA:BB:CC:DD:EE:FF", "dev1", details);
    var ticks := [Tick(Discovered([d]), 10), Tick(Discovered([d]), 30)];
    assert Accepted(d);
    assert FirstMissing([d]) == 1;
    assert [d][..1] == [d];
    ApplyAllNext(Empty, [d], 0, 10);
    assert [d][..0] == [];
    var r1 := Upsert(Empty, d, 10);
    assert Cycle(Empty, Discovered([d]), 10).registry == r1;
    ApplyAllNext(r1, [d], 0, 30);
    assert Cycle(r1, Discovered([d]), 30).registry == Upsert(r1, d, 30);
    assert ticks[..0] == [];
    RunCyclesNext(Empty, ticks, 0);
    RunCyclesNext(Empty, ticks, 1);
    assert ticks[..2] == ticks;
  }
}
