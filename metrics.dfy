/**
 * The `blescanner_seen_total{address, name}` counter (build/main.py:30-34): one
 * monotonic series per label pair, modelled as a map from label pairs to counts.
 * The metrics HTTP server and the processing-time summary are not modelled.
 */
module Metrics {

  /** A label pair of the seen counter: (address, name). */
  type Label = (string, string)

  type Counter = map<Label, nat>

  /** The value of one series; a series never incremented reads as 0. */
  function CountOf(c: Counter, l: Label): nat {
    if l in c then c[l] else 0
  }

  /** `DEVICE_SEEN_TOTAL.labels(address=..., name=...).inc()`. */
  function Inc(c: Counter, l: Label): (c': Counter)
    ensures CountOf(c', l) == CountOf(c, l) + 1
    ensures forall m :: m != l ==> CountOf(c', m) == CountOf(c, m)
    ensures c'.Keys == c.Keys + {l}
  {
    c[l := CountOf(c, l) + 1]
  }

  ghost function Pick(s: set<Label>): (l: Label)
    requires s != {}
    ensures l in s
  {
    var l :| l in s; l
  }

  /** The contribution of series `l` to the total of address `a`. */
  function Share(c: Counter, l: Label, a: string): nat {
    if l.0 == a then CountOf(c, l) else 0
  }

  /** The sum, over every name, of the series labelled with address `a`. */
  ghost function AddressTotal(c: Counter, a: string): nat
    decreases |c|
  {
    if c == map[] then 0
    else
      var l := Pick(c.Keys);
      assert |c - {l}| == |c| - 1;
      Share(c, l, a) + AddressTotal(c - {l}, a)
  }

  /** Any series, not only the one `AddressTotal` happens to pick, can be split off the total. */
  lemma {:induction false} AddressTotalSplit(c: Counter, l: Label, a: string)
    requires l in c
    ensures AddressTotal(c, a) == Share(c, l, a) + AddressTotal(c - {l}, a)
    decreases |c|
  {
    var p := Pick(c.Keys);
    if p != l {
      var rest := c - {p};
      assert |rest| == |c| - 1;
      AddressTotalSplit(rest, l, a);
      var rest' := c - {l};
      assert |rest'| == |c| - 1;
      AddressTotalSplit(rest', p, a);
      assert rest - {l} == rest' - {p};
      assert Share(rest, l, a) == Share(c, l, a);
      assert Share(rest', p, a) == Share(c, p, a);
    }
  }

  /** One increment of series `l` raises the total of `l`'s address by one and no other total. */
  lemma AddressTotalInc(c: Counter, l: Label, a: string)
    ensures AddressTotal(Inc(c, l), a) == AddressTotal(c, a) + (if l.0 == a then 1 else 0)
  {
    var c' := Inc(c, l);
    AddressTotalSplit(c', l, a);
    if l in c {
      AddressTotalSplit(c, l, a);
      assert c' - {l} == c - {l};
    } else {
      assert c' - {l} == c;
    }
  }
}
