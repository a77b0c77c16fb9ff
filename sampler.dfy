/**
 * Traffic sampling (main.go): the wraparound-aware counter difference, the
 * per-tick sum of byte deltas over the interfaces present in both snapshots,
 * and the strict threshold test. All arithmetic is Go's wrapping uint64.
 */
module Sampler {
  import opened UInt64
  import opened NetDev

  /**
   * diff(a, b): the traffic from an earlier reading b to a later reading a.
   * Without wraparound, b advanced by the result is a again. With wraparound
   * (a < b) the result is MaxUint64 - b + a, one less than the true modular
   * distance: b advanced by the result lands one short of a.
   */
  function Diff(a: U64, b: U64): (r: U64)
    ensures a >= b ==> r <= a && Add(b, r) == a
    ensures a < b ==> r < MAX && Add(Add(b, r), 1) == a
  {
    if a < b then MAX - b + a else a - b
  }

  /**
   * A counter that really advanced by k (less than one full turn) is measured
   * as k when it did not wrap and as k - 1 when it wrapped past MaxUint64.
   */
  lemma DiffOfAdvance(b: U64, k: U64)
    ensures Diff(Add(b, k), b) == if b + k <= MAX then k else k - 1
  {
  }

  /** The two examples of a wrapped counter: the result is one below the modular difference. */
  lemma DiffWrapExamples()
    ensures Diff(5, MAX) == 5
    ensures Diff(50, 100) == MODULUS - 51
    ensures Diff(100, 50) == 50
  {
  }

  /** The direction of a byte counter. */
  datatype Direction = Rx | Tx

  function Bytes(s: NetStat, d: Direction): U64 {
    match d
    case Rx => s.rxBytes
    case Tx => s.txBytes
  }

  /** What one interface contributes in one direction: its diff if both snapshots have it, else nothing. */
  function Delta(prev: Snapshot, cur: Snapshot, name: string, d: Direction): U64 {
    if name in cur && name in prev then Diff(Bytes(cur[name], d), Bytes(prev[name], d)) else 0
  }

  /** The wrapping sum of Delta over a set of names, taken in no particular order. */
  ghost function SumDeltas(prev: Snapshot, cur: Snapshot, names: set<string>, d: Direction): U64
    decreases names
  {
    if names == {} then 0
    else
      var n :| n in names;
      Add(Delta(prev, cur, n, d), SumDeltas(prev, cur, names - {n}, d))
  }

  /** Any name may be taken out first: the sum does not depend on the order of the names. */
  lemma {:induction false} SumDeltasPick(prev: Snapshot, cur: Snapshot, names: set<string>, d: Direction, n: string)
    requires n in names
    ensures SumDeltas(prev, cur, names, d) == Add(Delta(prev, cur, n, d), SumDeltas(prev, cur, names - {n}, d))
    decreases names
  {
    var m :| m in names && SumDeltas(prev, cur, names, d) == Add(Delta(prev, cur, m, d), SumDeltas(prev, cur, names - {m}, d));
    if m != n {
      var both := names - {m} - {n};
      assert names - {n} - {m} == both;
      SumDeltasPick(prev, cur, names - {m}, d, n);
      SumDeltasPick(prev, cur, names - {n}, d, m);
      AddSwap(Delta(prev, cur, m, d), Delta(prev, cur, n, d), SumDeltas(prev, cur, both, d));
    }
  }

  /** Names missing from either snapshot add nothing: the sum is the sum over the names both snapshots have. */
  lemma {:induction false} SumDeltasUnmatched(prev: Snapshot, cur: Snapshot, names: set<string>, d: Direction)
    ensures SumDeltas(prev, cur, names, d) == SumDeltas(prev, cur, names * cur.Keys * prev.Keys, d)
    decreases names
  {
    if names != {} {
      var n :| n in names;
      var common := names * cur.Keys * prev.Keys;
      var fewer := names - {n};
      SumDeltasPick(prev, cur, names, d, n);
      SumDeltasUnmatched(prev, cur, fewer, d);
      if n in cur && n in prev {
        SumDeltasPick(prev, cur, common, d, n);
        assert common - {n} == fewer * cur.Keys * prev.Keys;
      } else {
        assert common == fewer * cur.Keys * prev.Keys;
      }
    }
  }

  /** Two snapshot pairs whose deltas agree on the names give the same sum. */
  lemma {:induction false} SumDeltasAgree(p1: Snapshot, c1: Snapshot, p2: Snapshot, c2: Snapshot, names: set<string>, d: Direction)
    requires forall n :: n in names ==> Delta(p1, c1, n, d) == Delta(p2, c2, n, d)
    ensures SumDeltas(p1, c1, names, d) == SumDeltas(p2, c2, names, d)
    decreases names
  {
    if names != {} {
      var n :| n in names;
      SumDeltasPick(p1, c1, names, d, n);
      SumDeltasPick(p2, c2, names, d, n);
      SumDeltasAgree(p1, c1, p2, c2, names - {n}, d);
    }
  }

  /** One tick's traffic, rxBytes + txBytes: both sums run over the current snapshot's names. */
  ghost function Traffic(prev: Snapshot, cur: Snapshot): U64 {
    Add(SumDeltas(prev, cur, cur.Keys, Rx), SumDeltas(prev, cur, cur.Keys, Tx))
  }

  /** An interface that has just appeared has no baseline and adds nothing to the traffic. */
  lemma NewInterfaceIgnored(prev: Snapshot, cur: Snapshot, name: string, s: NetStat)
    requires name !in prev
    ensures Traffic(prev, cur[name := s]) == Traffic(prev, cur)
  {
    var grown := cur[name := s];
    assert grown.Keys * grown.Keys * prev.Keys == cur.Keys * cur.Keys * prev.Keys;
    forall d: Direction ensures SumDeltas(prev, grown, grown.Keys, d) == SumDeltas(prev, cur, cur.Keys, d) {
      SumDeltasUnmatched(prev, grown, grown.Keys, d);
      SumDeltasUnmatched(prev, cur, cur.Keys, d);
      SumDeltasAgree(prev, grown, prev, cur, cur.Keys * cur.Keys * prev.Keys, d);
    }
  }

  /** An interface that has just vanished adds nothing to the traffic. */
  lemma VanishedInterfaceIgnored(prev: Snapshot, cur: Snapshot, name: string, s: NetStat)
    requires name !in cur
    ensures Traffic(prev[name := s], cur) == Traffic(prev, cur)
  {
    var grown := prev[name := s];
    assert cur.Keys * cur.Keys * grown.Keys == cur.Keys * cur.Keys * prev.Keys;
    forall d: Direction ensures SumDeltas(grown, cur, cur.Keys, d) == SumDeltas(prev, cur, cur.Keys, d) {
      SumDeltasUnmatched(grown, cur, cur.Keys, d);
      SumDeltasUnmatched(prev, cur, cur.Keys, d);
      SumDeltasAgree(grown, cur, prev, cur, cur.Keys * cur.Keys * prev.Keys, d);
    }
  }

  /** The wrapping sum, over a set of names, of each interface's rx delta plus its tx delta. */
  ghost function SumBoth(prev: Snapshot, cur: Snapshot, names: set<string>): U64
    decreases names
  {
    if names == {} then 0
    else
      var n :| n in names;
      Add(Add(Delta(prev, cur, n, Rx), Delta(prev, cur, n, Tx)), SumBoth(prev, cur, names - {n}))
  }

  /** Summing rx and tx separately and adding at the end is the per-interface sum of rx + tx. */
  lemma {:induction false} SumDeltasSplit(prev: Snapshot, cur: Snapshot, names: set<string>)
    ensures Add(SumDeltas(prev, cur, names, Rx), SumDeltas(prev, cur, names, Tx)) == SumBoth(prev, cur, names)
    decreases names
  {
    if names != {} {
      var n :| n in names && SumBoth(prev, cur, names) ==
        Add(Add(Delta(prev, cur, n, Rx), Delta(prev, cur, n, Tx)), SumBoth(prev, cur, names - {n}));
      SumDeltasPick(prev, cur, names, Rx, n);
      SumDeltasPick(prev, cur, names, Tx, n);
      SumDeltasSplit(prev, cur, names - {n});
      var x, y := Delta(prev, cur, n, Rx), Delta(prev, cur, n, Tx);
      var sx, sy := SumDeltas(prev, cur, names - {n}, Rx), SumDeltas(prev, cur, names - {n}, Tx);
      AddSwap(x, sx, Add(y, sy));
      AddSwap(sx, y, sy);
      AddSwap(x, y, Add(sx, sy));
    }
  }

  /**
   * The `for name, stat := range stats` loop: for each name of the current
   * snapshot, in whatever order the map yields them, add its rx and tx diffs
   * when the previous snapshot has the name too.
   */
  method Aggregate(prev: Snapshot, cur: Snapshot) returns (rxBytes: U64, txBytes: U64)
    ensures rxBytes == SumDeltas(prev, cur, cur.Keys, Rx)
    ensures txBytes == SumDeltas(prev, cur, cur.Keys, Tx)
  {
    rxBytes, txBytes := 0, 0;
    var pending := cur.Keys;
    while pending != {}
      invariant pending <= cur.Keys
      invariant rxBytes == SumDeltas(prev, cur, cur.Keys - pending, Rx)
      invariant txBytes == SumDeltas(prev, cur, cur.Keys - pending, Tx)
      decreases pending
    {
      var name :| name in pending;
      var stat := cur[name];
      if name in prev {
        var prevStat := prev[name];
        rxBytes := Add(rxBytes, Diff(stat.rxBytes, prevStat.rxBytes));
        txBytes := Add(txBytes, Diff(stat.txBytes, prevStat.txBytes));
      }
      var done := cur.Keys - pending;
      pending := pending - {name};
      assert cur.Keys - pending == done + {name} && (done + {name}) - {name} == done;
      SumDeltasPick(prev, cur, done + {name}, Rx, name);
      SumDeltasPick(prev, cur, done + {name}, Tx, name);
    }
    assert cur.Keys - pending == cur.Keys;
  }

  /** The inhibit test `threshold*1024 < rxBytes+txBytes`: strict, with threshold*1024 wrapping in uint64. */
  function Exceeds(threshold: U64, traffic: U64): (b: bool)
    ensures threshold * 1024 <= MAX ==> (b <==> threshold * 1024 < traffic)
  {
    Mul(threshold, 1024) < traffic
  }

  /** Traffic exactly at the threshold does not trigger; one byte more does. */
  lemma ThresholdIsStrict(threshold: U64)
    requires threshold * 1024 < MAX
    ensures !Exceeds(threshold, threshold * 1024)
    ensures Exceeds(threshold, threshold * 1024 + 1)
  {
  }

  /** A threshold of 2^54 KB/s or more wraps: 2^54 * 1024 is 0 in uint64, so one byte of traffic triggers. */
  lemma ThresholdWraps()
    ensures Mul(0x40_0000_0000_0000, 1024) == 0
    ensures Exceeds(0x40_0000_0000_0000, 1)
  {
  }

  /** A record whose byte counters are rx and tx and whose other counters are 0. */
  function ByteCounts(rx: U64, tx: U64): (s: NetStat)
    ensures s.rxBytes == rx && s.txBytes == tx
  {
    NetStat(rx, 0, 0, 0, 0, 0, 0, 0, tx, 0, 0, 0, 0, 0, 0, 0)
  }

  /** Interface B appears with 1000 bytes each way and no baseline; only A's 10 bytes count. */
  lemma TrafficExample()
    ensures Traffic(map["A" := ByteCounts(0, 0)], map["A" := ByteCounts(10, 0), "B" := ByteCounts(1000, 1000)]) == 10
  {
    var prev := map["A" := ByteCounts(0, 0)];
    var cur := map["A" := ByteCounts(10, 0), "B" := ByteCounts(1000, 1000)];
    assert cur.Keys * cur.Keys * prev.Keys == {"A"};
    assert {"A"} - {"A"} == {};
    forall d: Direction ensures SumDeltas(prev, cur, cur.Keys, d) == Delta(prev, cur, "A", d) {
      SumDeltasUnmatched(prev, cur, cur.Keys, d);
      SumDeltasPick(prev, cur, {"A"}, d, "A");
    }
  }
}
