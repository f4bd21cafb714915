# BLE scanner presence registry, modelled in Dafny

This project models the core of a small Prometheus exporter. The exporter scans
for Bluetooth Low Energy devices over and over. It keeps an in-memory registry
of every device it has accepted, in the module-level dict `DEVICES` (address to
record). It also keeps a counter, `blescanner_seen_total{address, name}`.

One scan cycle (`main()`) does the following for each discovered device, in order:
- It drops the device if its `AddressType` property is `"random"`.
- Otherwise it increments the counter series for the device's (address, name).
- It then creates the address's record (first_seen, last_seen, seen = 1, name, details),
  or, for a known address, sets last_seen and adds one to seen.

The outer `while True` loop absorbs any exception a cycle raises. After every
cycle it reports the records sorted by last_seen, most recent first, followed by
the number of records.

## Modules

- `Wrappers` (wrappers.dfy): `Option`, distinctness of a sequence, and three facts about it.
- `Metrics` (metrics.dfy): the seen counter as `map<(address, name), nat>`. It also holds
  `AddressTotal`, the sum over all names of one address's series.
- `Presence` (presence.dfy): the data model, and one cycle and the loop as functions on values.
  The functions are `Upsert`, `Step`, `FirstMissing`, `ApplyAll`, `Cycle`, `RunCycles`
  and `Outcomes`. The module also defines the registry invariant `Valid` and the
  reference counts (`CountAccepted`, `CountLabel`, `AcceptedInRun`).
- `PresenceFacts` (presence_facts.dfy): the lemmas about those functions.
- `Report` (report.dfy): the sorted report, as a stable insertion sort, and its proofs.
- `Scanner` (scanner.dfy): class `BleScanner`, which holds `DEVICES`, the key insertion
  order and the counter as fields. Its methods `ScanCycle`, `Accept` and `Run` update
  them in place with the source's loops. Each is proved equal to the functions above.

Time is an input: each cycle gets one clock reading, `now: nat`. The result of discovery
is also an input: `DiscoveryFailed`, or the list of devices seen (`Discovered`).
`Valid` is the registry invariant. It says:
- each record is stored under its own address and has `seen >= 1`;
- the insertion order lists every key exactly once;
- for every address, its counter series summed over all names equal its record's `seen`.

## Where the code and its design description differ (the model follows the code)

- Updating a known address does not overwrite `name` or `details` (build/main.py:92-95).
  Only `last_seen` and `seen` change.
- The report has no tie-break by address. Python's `sorted(..., reverse=True)` is stable,
  so records with equal `last_seen` keep the dict's insertion order. `Report.SortSpec`
  states exactly that.
- A device without an `AddressType` key raises `KeyError` (build/main.py:74). That ends the
  whole cycle: earlier devices keep their updates and later ones are not processed. There
  is no per-device isolation, and a missing key is not treated as acceptable.
- `main()` returns no accepted and ignored counts.
- The report is produced after every cycle, failed ones included (build/main.py:107-112).

## Model

| member | source | states |
|---|---|---|
| Metrics.Inc | build/main.py:77-79 | the (address, name) series rises by exactly one; every other series keeps its value |
| Metrics.AddressTotalInc | build/main.py:77-79 | one increment of a series raises the per-address total of that series' address by one, and no other address's total |
| Presence.AddressType | build/main.py:74 | the lookup of `details["props"]["AddressType"]` gives a value exactly when the key is present, and that value is the property's |
| Presence.IsRandom | build/main.py:74 | a device is filtered as random exactly when its `AddressType` is present and equals "random"; the filter's effect is stated by `Step`, `RandomIsInvisible`, `RandomOnlyApply` and `RandomOnlyScan` |
| Presence.Accepted | build/main.py:74 | a device passes the filter exactly when it has an `AddressType` and that type is not "random" |
| Presence.Step | build/main.py:74-76 | a device that is filtered out (address type "random") leaves records, key order and counter all unchanged; an accepted one raises its address's seen count by one |
| Presence.Upsert | build/main.py:77-95 | the keys become the old keys plus the address; other records are untouched; a new address gets first_seen = last_seen = now, seen = 1 and the observed name and details, and is appended to the key order; a known address gets last_seen = now and seen + 1, with name, details and first_seen kept; only the (address, name) series rises, by one |
| Presence.FirstMissing | build/main.py:70-74 | the index of the first device without an `AddressType`, or the list length; every device before it has the key |
| Presence.ApplyAll | build/main.py:70-95 | the device loop over a list deletes no key and only appends to the key order; its other effects are stated by `ApplyAllSeen`, `ApplyAllCounter`, `ApplyAllTouched`, `ApplyAllUntouched`, `ApplyAllExtends` and `ApplyAllPreservesValid` |
| Presence.Cycle | build/main.py:68-95 | a failed discovery leaves the registry unchanged and raises; a cycle completes exactly when every device has an `AddressType`; if it raises on device k, then k is the first device without the key and only devices 0..k-1 were applied |
| Presence.RunCycles | build/main.py:101-113 | the registry after the loop's turns so far, each turn applying its cycle to the state the previous turn left, raised or not; its properties are stated by `RunExtends`, `RunSeen`, `RunPreservesValid` and `RunClocked` |
| Presence.Outcomes | build/main.py:101-106 | one outcome per turn of the loop; what a cycle raised does not stop the following ones (entry by entry in `OutcomesAt`) |
| PresenceFacts.OutcomesAt | build/main.py:101-106 | the outcome of turn i is what cycle i raised when run on the registry the first i turns left |
| PresenceFacts.EmptyIsValid | build/main.py:30-36 | the empty registry and fresh counter satisfy the invariant |
| PresenceFacts.UpsertPreservesValid | build/main.py:77-95 | an upsert keeps one record per address under its own key, the key order duplicate-free and complete, and per-address counter totals equal to seen |
| PresenceFacts.ApplyAllPreservesValid | build/main.py:70-95 | the device loop keeps the invariant |
| PresenceFacts.CyclePreservesValid | build/main.py:68-95 | every cycle, whether it completes or raises, keeps the invariant |
| PresenceFacts.RunPreservesValid | build/main.py:101-113 | the invariant holds after any number of cycles |
| PresenceFacts.ApplyAllSeen | build/main.py:83-95 | after the device loop, each address's seen count has grown by exactly the number of accepted devices with that address, duplicates in one scan included |
| PresenceFacts.ApplyAllCounter | build/main.py:77-79 | each (address, name) series has grown by exactly the number of accepted devices with that label |
| PresenceFacts.ApplyAllUntouched | build/main.py:81-95 | an address with no accepted device in the scan keeps its record unchanged, or stays absent |
| PresenceFacts.ApplyAllTouched | build/main.py:81-95 | an address accepted in the scan ends with last_seen = now; a known one keeps first_seen, name, details and address; a new one has first_seen = now and the name and details of its first accepted device |
| PresenceFacts.ApplyAllExtends | build/main.py:81-95 | the device loop deletes no key, only appends to the key order, and keeps each record's address, name, details and first_seen, with seen rising or staying the same |
| PresenceFacts.RunExtends | build/main.py:101-113 | the same holds across any run of cycles: keys only grow |
| PresenceFacts.RunAppend | build/main.py:101-113 | running two stretches of ticks one after the other is running their concatenation |
| PresenceFacts.RunLastSeen | build/main.py:88-113 | after a run, an address accepted in cycle i and in no later cycle has a record whose last_seen is cycle i's clock reading |
| PresenceFacts.RunFirstSeen | build/main.py:83-113 | from process start, an address first accepted in cycle i has a record whose first_seen is cycle i's clock reading, whatever the later cycles do |
| PresenceFacts.RunSeen | build/main.py:83-95 | over a run, each address's seen count grows by exactly its accepted sightings in the parts of the scans that were processed |
| PresenceFacts.SeenFromStart | build/main.py:81-95 | from process start, an address has a record exactly when it was accepted at least once, and its seen count is the number of times it was accepted |
| PresenceFacts.ApplyAllClocked | build/main.py:87-94 | if every record has first_seen <= last_seen <= t and t <= now, then after the loop every record has first_seen <= last_seen <= now |
| PresenceFacts.RunClocked | build/main.py:101-113 | with clock readings that never go back, every record has first_seen <= last_seen after any run |
| PresenceFacts.RandomIsInvisible | build/main.py:74-76 | inserting a random-address device anywhere in a scan changes nothing about the fold's result |
| PresenceFacts.RandomOnlyApply | build/main.py:74-76 | a device loop over random-address devices only is the identity |
| PresenceFacts.RandomOnlyScan | build/main.py:74-76 | a scan of random-address devices only completes and leaves the registry unchanged |
| PresenceFacts.AbortedCycle | build/main.py:69-74 | a cycle that raises on a discovered list raised for a missing `AddressType` at k; seen counts grow only by the accepted devices before k; an address accepted only from k onwards is untouched |
| PresenceFacts.SameDeviceTwoCycles | build/main.py:81-95 | a public device "AA:BB:CC:DD:EE:FF" named "dev1", seen in two cycles, gives one record with seen = 2, the first cycle's first_seen, the second cycle's last_seen, name "dev1", and a counter series of value 2 |
| Report.Items | build/main.py:108-109 | `DEVICES.items()` in insertion order: one line per key of the order, carrying that record's last_seen and seen |
| Report.SortByLastSeen | build/main.py:108-110 | the sorted lines are a permutation of the input; the order and stability are stated by `SortSpec` |
| Report.SortSpec | build/main.py:108-110 | the sort is a permutation of its input, ordered by non-increasing last_seen, and stable: for every timestamp, the lines carrying it keep their input order |
| Report.ReportOf | build/main.py:108-112 | the report's lines are a permutation of the items, most recent first, with ties in insertion order |
| Report.ItemsOfKeyed | build/main.py:108-109 | when the key order lists every key once, the items are duplicate-free and as many as the records |
| Report.ReportListsEveryDevice | build/main.py:108-112 | when the key order lists every key once (as the invariant ensures), every record appears in exactly one line, with its own last_seen and seen, and the printed total equals the number of lines and of records |
| Report.Reports | build/main.py:107-112 | the loop produces one report per turn, whatever the cycle raised |
| Report.ReportsAt | build/main.py:107-112 | the i-th report is the report of the registry after the first i + 1 cycles |
| Scanner.BleScanner.constructor | build/main.py:30-36 | the process starts with no records, an empty key order and no counter series |
| Scanner.BleScanner.Accept | build/main.py:77-95 | the in-place counter increment and create-or-update give exactly `Upsert` of the old state |
| Scanner.BleScanner.ScanCycle | build/main.py:68-95 | the in-place device loop, with its `continue` for random addresses and its early exit on a missing key, leaves the state and the outcome that `Cycle` gives, and keeps the invariant |
| Scanner.BleScanner.Run | build/main.py:101-113 | the in-place loop over the ticks ends in the state `RunCycles` gives, with the outcomes of `Outcomes` and the reports of `Reports` |

## Left out

- Discovery over the radio (`BleakScanner.discover()`, build/main.py:69) and the asyncio
  runtime (build/main.py:103) are not modelled. Each discovery result is an input value
  (`ScanResult`).
- `time.time()` (build/main.py:87-88, 94) is modelled as one natural number per cycle,
  which every reading in that cycle uses. The source reads the clock separately for
  first_seen and last_seen, so its values can differ by a fraction of a second; here they
  are equal. The source's float timestamps are not modelled either.
- `time.sleep(EXPORTER_INTERVAL)` (build/main.py:113) is not modelled. The loop that runs
  forever is modelled as the finite sequence of turns it has made so far (`Run`, `RunCycles`).
- The Prometheus HTTP server and the `Summary` timing decorator (build/main.py:29, 67, 100)
  are not modelled, because they are network I/O and wall-clock measurement. Counter values
  are natural numbers rather than floats.
- Logging and the `yaml.dump` diagnostics (build/main.py:71-75, 82, 91, 93, 105-106,
  111-112) are not modelled as output. The report is returned as data (`ScanReport`).
- Reading the configuration from the environment (build/main.py:12-26) is not modelled.
- `d.details` is modelled as an object path and a property bag of strings. A missing
  `"props"` entry, which would also raise `KeyError`, is not modelled. Nor are non-string
  property values, or a device name of `None`.
- Exceptions other than a discovery failure and a missing `AddressType` are not modelled:
  nothing else is modelled as raising. In the source, `d.details["props"]` also raises
  `KeyError` when `"props"` is absent, and `TypeError` when `details` is not a dict; see
  the `details` bullet above.
- Report.ReportOf: devices accepted in the same cycle share one clock reading, so they tie
  on last_seen and the report lists them in insertion order. The source reads `time.time()`
  for each device (build/main.py:88, 94), so a device processed later in the cycle usually
  has the larger last_seen and is listed first. Example: A and B are known, A was inserted
  first, and the scan is [A, B]. The source reports B then A; the model reports A then B.
- PresenceFacts.RunClocked: assumes clock readings that never go back. The source uses the
  wall clock, which can be set back, and then first_seen <= last_seen can fail.
