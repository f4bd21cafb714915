/**
 * The report the outer loop logs after every cycle (build/main.py:108-112):
 * the records sorted by last_seen, most recent first, one line
 * `address, last_seen, seen` each, then the number of records.
 */
module Report {
  import opened Wrappers
  import opened Presence
  import opened PresenceFacts

  datatype ReportLine = ReportLine(address: string, lastSeen: nat, seen: nat)

  datatype ScanReport = ScanReport(lines: seq<ReportLine>, total: nat)

  /** Every key in the insertion order has a record. */
  ghost predicate Indexed(r: Registry) {
    forall a :: a in r.order ==> a in r.devices
  }

  /** `DEVICES.items()` in the dict's insertion order, as report lines. */
  function Items(order: seq<string>, devices: map<string, DeviceRecord>): (s: seq<ReportLine>)
    requires forall a :: a in order ==> a in devices
    ensures |s| == |order|
    ensures forall i :: 0 <= i < |s| ==>
      s[i] == ReportLine(order[i], devices[order[i]].lastSeen, devices[order[i]].seen)
  {
    if order == [] then []
    else
      var rec := devices[order[0]];
      [ReportLine(order[0], rec.lastSeen, rec.seen)] + Items(order[1..], devices)
  }

  /** Most recent first: last_seen never increases along `s`. */
  ghost predicate Descending(s: seq<ReportLine>) {
    forall i, j :: 0 <= i < j < |s| ==> s[i].lastSeen >= s[j].lastSeen
  }

  /** The subsequence of lines with last_seen equal to `t`, in their order in `s`. */
  function WithLastSeen(s: seq<ReportLine>, t: nat): seq<ReportLine> {
    if s == [] then []
    else (if s[0].lastSeen == t then [s[0]] else []) + WithLastSeen(s[1..], t)
  }

  /** Puts `x` before the first line of `s` that is not more recent than `x`. */
  function Insert(x: ReportLine, s: seq<ReportLine>): seq<ReportLine> {
    if s == [] || s[0].lastSeen <= x.lastSeen then [x] + s
    else [s[0]] + Insert(x, s[1..])
  }

  /** `sorted(items, key=last_seen, reverse=True)`: a stable sort, most recent first. */
  function SortByLastSeen(s: seq<ReportLine>): (s': seq<ReportLine>)
    ensures multiset(s') == multiset(s)
  {
    if s == [] then []
    else
      InsertPermutes(s[0], SortByLastSeen(s[1..]));
      assert s == [s[0]] + s[1..];
      Insert(s[0], SortByLastSeen(s[1..]))
  }

  lemma {:induction false} InsertPermutes(x: ReportLine, s: seq<ReportLine>)
    ensures multiset(Insert(x, s)) == multiset{x} + multiset(s)
  {
    if !(s == [] || s[0].lastSeen <= x.lastSeen) {
      InsertPermutes(x, s[1..]);
      assert s == [s[0]] + s[1..];
    }
  }

  lemma {:induction false} InsertDescending(x: ReportLine, s: seq<ReportLine>)
    requires Descending(s)
    ensures Descending(Insert(x, s))
  {
    if !(s == [] || s[0].lastSeen <= x.lastSeen) {
      var rest := Insert(x, s[1..]);
      InsertDescending(x, s[1..]);
      InsertPermutes(x, s[1..]);
      forall j | 0 <= j < |rest| ensures s[0].lastSeen >= rest[j].lastSeen {
        assert rest[j] in multiset(rest);
        if rest[j] != x {
          assert rest[j] in s[1..];
        }
      }
    }
  }

  /** Inserting `x` leaves the lines of every other timestamp in place and puts `x` first among its own. */
  lemma {:induction false} InsertStable(x: ReportLine, s: seq<ReportLine>, t: nat)
    ensures WithLastSeen(Insert(x, s), t) == (if x.lastSeen == t then [x] else []) + WithLastSeen(s, t)
  {
    if s == [] || s[0].lastSeen <= x.lastSeen {
      assert Insert(x, s) == [x] + s;
      assert ([x] + s)[0] == x;
      assert ([x] + s)[1..] == s;
    } else {
      var rest := Insert(x, s[1..]);
      assert Insert(x, s) == [s[0]] + rest;
      InsertStable(x, s[1..], t);
      assert ([s[0]] + rest)[0] == s[0];
      assert ([s[0]] + rest)[1..] == rest;
      assert x.lastSeen != t || s[0].lastSeen != t;
    }
  }

  /**
   * The sort is a permutation, most recent first, and stable: for every
   * timestamp, the lines carrying it keep their order in the input.
   */
  lemma {:induction false} SortSpec(s: seq<ReportLine>)
    ensures Descending(SortByLastSeen(s))
    ensures multiset(SortByLastSeen(s)) == multiset(s)
    ensures forall t :: WithLastSeen(SortByLastSeen(s), t) == WithLastSeen(s, t)
  {
    if s != [] {
      SortSpec(s[1..]);
      InsertDescending(s[0], SortByLastSeen(s[1..]));
      InsertPermutes(s[0], SortByLastSeen(s[1..]));
      assert s == [s[0]] + s[1..];
      forall t ensures WithLastSeen(SortByLastSeen(s), t) == WithLastSeen(s, t) {
        InsertStable(s[0], SortByLastSeen(s[1..]), t);
      }
    }
  }

  /** The report logged after a cycle: the sorted items and `len(DEVICES)`. */
  function ReportOf(r: Registry): (rep: ScanReport)
    requires Indexed(r)
    ensures Descending(rep.lines)
    ensures multiset(rep.lines) == multiset(Items(r.order, r.devices))
    ensures forall t :: WithLastSeen(rep.lines, t) == WithLastSeen(Items(r.order, r.devices), t)
  {
    SortSpec(Items(r.order, r.devices));
    ScanReport(SortByLastSeen(Items(r.order, r.devices)), |r.devices|)
  }

  /** When the key order lists every key once, so do the items, one per record. */
  lemma ItemsOfKeyed(r: Registry)
    requires Keyed(r)
    ensures Indexed(r)
    ensures |Items(r.order, r.devices)| == |r.devices|
    ensures Distinct(Items(r.order, r.devices))
  {
    var items := Items(r.order, r.devices);
    DistinctCard(r.order);
    assert (set a | a in r.order) == r.devices.Keys;
    forall i, j | 0 <= i < j < |items| ensures items[i] != items[j] {
      assert items[i].address == r.order[i];
    }
  }

  /** A line of a permutation of the items is one of the items. */
  lemma LineIsItem(items: seq<ReportLine>, lines: seq<ReportLine>, i: nat)
    requires multiset(lines) == multiset(items) && i < |lines|
    ensures exists k :: 0 <= k < |items| && items[k] == lines[i]
  {
    assert lines[i] in multiset(items);
  }

  /** Every line of a permutation of the items is the line of one record. */
  lemma PermutedLinesAreRecords(r: Registry, lines: seq<ReportLine>)
    requires Indexed(r) && multiset(lines) == multiset(Items(r.order, r.devices))
    ensures forall i :: 0 <= i < |lines| ==>
      && lines[i].address in r.devices
      && lines[i].lastSeen == r.devices[lines[i].address].lastSeen
      && lines[i].seen == r.devices[lines[i].address].seen
  {
    forall i | 0 <= i < |lines|
      ensures lines[i].address in r.devices
      ensures lines[i].lastSeen == r.devices[lines[i].address].lastSeen
      ensures lines[i].seen == r.devices[lines[i].address].seen
    {
      LineIsItem(Items(r.order, r.devices), lines, i);
    }
  }

  /** A permutation of the items has a line for every record. */
  lemma PermutedLinesCoverRecords(r: Registry, lines: seq<ReportLine>)
    requires Keyed(r) && multiset(lines) == multiset(Items(r.order, r.devices))
    ensures forall a :: a in r.devices ==> exists i :: 0 <= i < |lines| && lines[i].address == a
  {
    var items := Items(r.order, r.devices);
    forall a | a in r.devices
      ensures exists i :: 0 <= i < |lines| && lines[i].address == a
    {
      var k :| 0 <= k < |r.order| && r.order[k] == a;
      assert items[k] in multiset(lines);
      assert items[k].address == a;
    }
  }

  /** A permutation of the items names no address twice. */
  lemma PermutedLinesDistinct(r: Registry, lines: seq<ReportLine>)
    requires Keyed(r) && multiset(lines) == multiset(Items(r.order, r.devices))
    ensures forall i, j :: 0 <= i < j < |lines| ==> lines[i].address != lines[j].address
  {
    var items := Items(r.order, r.devices);
    ItemsOfKeyed(r);
    DistinctPermutation(items, lines);
    forall i, j | 0 <= i < j < |lines| ensures lines[i].address != lines[j].address {
      LineIsItem(items, lines, i);
      LineIsItem(items, lines, j);
      var p :| 0 <= p < |items| && items[p] == lines[i];
      var q :| 0 <= q < |items| && items[q] == lines[j];
      assert lines[i] != lines[j];
      assert r.order[p] != r.order[q];
    }
  }

  /**
   * The report lists every record exactly once, with its own last_seen and
   * seen, and its total is the number of lines.
   */
  lemma ReportListsEveryDevice(r: Registry)
    requires Keyed(r)
    ensures Indexed(r)
    ensures |ReportOf(r).lines| == ReportOf(r).total == |r.devices|
    ensures forall i :: 0 <= i < |ReportOf(r).lines| ==>
      var line := ReportOf(r).lines[i];
      line.address in r.devices
      && line.lastSeen == r.devices[line.address].lastSeen
      && line.seen == r.devices[line.address].seen
    ensures forall a :: a in r.devices ==>
      exists i :: 0 <= i < |ReportOf(r).lines| && ReportOf(r).lines[i].address == a
    ensures forall i, j :: 0 <= i < j < |ReportOf(r).lines| ==>
      ReportOf(r).lines[i].address != ReportOf(r).lines[j].address
  {
    ItemsOfKeyed(r);
    var items := Items(r.order, r.devices);
    var lines := ReportOf(r).lines;
    assert |lines| == |multiset(lines)| == |multiset(items)| == |items|;
    PermutedLinesAreRecords(r, lines);
    PermutedLinesCoverRecords(r, lines);
    PermutedLinesDistinct(r, lines);
  }

  /** The report logged after each turn of the outer loop, in order. */
  function Reports(r: Registry, ticks: seq<Tick>): (rs: seq<ScanReport>)
    requires Valid(r)
    ensures |rs| == |ticks|
    decreases |ticks|
  {
    if ticks == [] then []
    else
      RunPreservesValid(r, ticks);
      ItemsOfKeyed(RunCycles(r, ticks));
      Reports(r, ticks[..|ticks| - 1]) + [ReportOf(RunCycles(r, ticks))]
  }

  /** The i-th report is the report of the registry after the first i + 1 cycles. */
  lemma {:induction false} ReportsAt(r: Registry, ticks: seq<Tick>, i: nat)
    requires Valid(r) && i < |ticks|
    ensures Valid(RunCycles(r, ticks[..i + 1])) && Indexed(RunCycles(r, ticks[..i + 1]))
    ensures Reports(r, ticks)[i] == ReportOf(RunCycles(r, ticks[..i + 1]))
    decreases |ticks|
  {
    RunPreservesValid(r, ticks[..i + 1]);
    ItemsOfKeyed(RunCycles(r, ticks[..i + 1]));
    if i < |ticks| - 1 {
      ReportsAt(r, ticks[..|ticks| - 1], i);
      assert ticks[..|ticks| - 1][..i + 1] == ticks[..i + 1];
    } else {
      assert ticks[..i + 1] == ticks;
    }
  }
}
