/**
 * The three anomaly rules the analyzer reports: MACs sending more than five
 * DHCP packets, message types outside the usual DORA exchange, and the
 * presence of requested client addresses.
 */
module Anomalies {
  import opened Records
  import opened Counting
  import opened Aggregation

  /** A MAC is reported when it sent strictly more packets than this. */
  const VolumeThreshold: nat := 5

  /** The message types the analyzer considers normal. */
  const StandardTypes: set<string> := {"DISCOVER", "REQUEST", "ACK", "OFFER"}

  datatype Finding =
    | HighVolume(mac: string, shortMac: string, count: nat)
    | UnusualTypes(types: seq<string>)
    | LeasesObserved

  /** One high-volume finding per table entry above the threshold, in table order. */
  function HighVolumeFindings(ps: seq<(string, nat)>): (fs: seq<Finding>)
    ensures forall f :: f in fs ==>
      f.HighVolume? && (f.mac, f.count) in ps && f.count > VolumeThreshold && f.shortMac == Label(f.mac)
    ensures forall p :: p in ps && p.1 > VolumeThreshold ==> HighVolume(p.0, Label(p.0), p.1) in fs
  {
    if ps == [] then []
    else
      assert ps == [ps[0]] + ps[1..];
      (if ps[0].1 > VolumeThreshold then [HighVolume(ps[0].0, Label(ps[0].0), ps[0].1)] else [])
        + HighVolumeFindings(ps[1..])
  }

  /** Every high-volume finding names a MAC of the table. */
  lemma HighVolumeMacs(ps: seq<(string, nat)>)
    ensures forall f :: f in HighVolumeFindings(ps) ==> f.mac in Keys(ps)
  {
    forall f | f in HighVolumeFindings(ps) ensures f.mac in Keys(ps) {
      var k :| 0 <= k < |ps| && ps[k] == (f.mac, f.count);
      assert Keys(ps)[k] == f.mac;
    }
  }

  /** No two high-volume findings name the same MAC. */
  predicate DistinctMacs(fs: seq<Finding>) {
    forall i, j :: 0 <= i < j < |fs| && fs[i].HighVolume? && fs[j].HighVolume? ==> fs[i].mac != fs[j].mac
  }

  lemma DistinctMacsCons(head: seq<Finding>, rest: seq<Finding>)
    requires |head| <= 1 && DistinctMacs(rest)
    requires forall f, g :: f in head && g in rest && f.HighVolume? && g.HighVolume? ==> f.mac != g.mac
    ensures DistinctMacs(head + rest)
  {
    var fs := head + rest;
    forall i, j | 0 <= i < j < |fs| && fs[i].HighVolume? && fs[j].HighVolume? ensures fs[i].mac != fs[j].mac {
      assert fs[j] == rest[j - |head|];
      if i < |head| {
        assert fs[i] in head && fs[j] in rest;
      } else {
        assert fs[i] == rest[i - |head|];
      }
    }
  }

  /** A table with unique keys yields at most one high-volume finding per MAC. */
  lemma {:induction false} HighVolumeDistinct(ps: seq<(string, nat)>)
    requires NoDup(Keys(ps))
    ensures DistinctMacs(HighVolumeFindings(ps))
  {
    if ps != [] {
      var rest := HighVolumeFindings(ps[1..]);
      var head := if ps[0].1 > VolumeThreshold then [HighVolume(ps[0].0, Label(ps[0].0), ps[0].1)] else [];
      assert HighVolumeFindings(ps) == head + rest;
      assert Keys(ps) == [ps[0].0] + Keys(ps[1..]);
      assert NoDup(Keys(ps[1..]));
      HighVolumeDistinct(ps[1..]);
      HighVolumeMacs(ps[1..]);
      DistinctMacsCons(head, rest);
    }
  }

  /** High-volume findings come by descending count. */
  predicate ByDescendingCount(fs: seq<Finding>) {
    forall i, j :: 0 <= i < j < |fs| && fs[i].HighVolume? && fs[j].HighVolume? ==> fs[i].count >= fs[j].count
  }

  lemma ByDescendingCountCons(f: Finding, rest: seq<Finding>)
    requires f.HighVolume? && ByDescendingCount(rest)
    requires forall g :: g in rest && g.HighVolume? ==> g.count <= f.count
    ensures ByDescendingCount([f] + rest)
  {
    var fs := [f] + rest;
    forall i, j | 0 <= i < j < |fs| && fs[i].HighVolume? && fs[j].HighVolume? ensures fs[i].count >= fs[j].count {
      assert fs[j] == rest[j - 1] && fs[j] in rest;
      if i > 0 {
        assert fs[i] == rest[i - 1];
      }
    }
  }

  /** A table sorted by descending count yields its high-volume findings by descending count. */
  lemma {:induction false} HighVolumeOrder(ps: seq<(string, nat)>)
    requires NonIncreasing(ps)
    ensures ByDescendingCount(HighVolumeFindings(ps))
  {
    if ps != [] {
      var tail := ps[1..];
      assert NonIncreasing(tail) by {
        forall i, j | 0 <= i < j < |tail| ensures tail[i].1 >= tail[j].1 {
          assert tail[i] == ps[i + 1] && tail[j] == ps[j + 1];
        }
      }
      HighVolumeOrder(tail);
      if ps[0].1 > VolumeThreshold {
        var rest := HighVolumeFindings(tail);
        forall g | g in rest && g.HighVolume? ensures g.count <= ps[0].1 {
          var k :| 0 <= k < |tail| && tail[k] == (g.mac, g.count);
          assert tail[k] == ps[k + 1];
        }
        ByDescendingCountCons(HighVolume(ps[0].0, Label(ps[0].0), ps[0].1), rest);
      }
    }
  }

  /** The types of `ts` outside the standard set, in order (the `unusual` rows). */
  function NonStandard(ts: seq<string>): (u: seq<string>)
    ensures forall i :: 0 <= i < |u| ==> u[i] !in StandardTypes && u[i] in ts
    ensures forall i :: 0 <= i < |ts| && ts[i] !in StandardTypes ==> ts[i] in u
  {
    if ts == [] then []
    else
      assert ts == [ts[0]] + ts[1..];
      (if ts[0] !in StandardTypes then [ts[0]] else []) + NonStandard(ts[1..])
  }

  /** The unusual-type finding, when any row has an unusual type: its distinct types in first-seen order. */
  function UnusualFinding(events: seq<Event>): seq<Finding> {
    var unusual := NonStandard(Types(events));
    if |unusual| > 0 then [UnusualTypes(Distinct(unusual))] else []
  }

  /** The lease finding, when any row carries a client address. */
  function LeaseFinding(events: seq<Event>): seq<Finding> {
    if |Without(ClientIps(events), NoAddress)| > 0 then [LeasesObserved] else []
  }

  /** All findings in report order: high volume per MAC, then unusual types, then leases. */
  function Detect(events: seq<Event>): seq<Finding> {
    HighVolumeFindings(ValueCounts(events)) + UnusualFinding(events) + LeaseFinding(events)
  }

  /**
   * Where each kind of finding sits: the high-volume findings first, by
   * descending count, then at most one unusual-type finding, then at most one
   * lease finding.
   */
  lemma DetectLayout(events: seq<Event>)
    ensures |UnusualFinding(events)| <= 1 && |LeaseFinding(events)| <= 1
    ensures forall i :: 0 <= i < |Detect(events)| ==>
      (Detect(events)[i].HighVolume? <==> i < |HighVolumeFindings(ValueCounts(events))|)
    ensures forall i :: 0 <= i < |Detect(events)| ==>
      (Detect(events)[i].UnusualTypes? <==>
        |HighVolumeFindings(ValueCounts(events))| <= i < |HighVolumeFindings(ValueCounts(events))| + |UnusualFinding(events)|)
    ensures forall i :: 0 <= i < |Detect(events)| ==>
      (Detect(events)[i].LeasesObserved? <==>
        |HighVolumeFindings(ValueCounts(events))| + |UnusualFinding(events)| <= i)
    ensures ByDescendingCount(Detect(events))
  {
    DetectOrder(events);
    var hv := HighVolumeFindings(ValueCounts(events));
    var uf, lf := UnusualFinding(events), LeaseFinding(events);
    var d := Detect(events);
    forall i | 0 <= i < |d|
      ensures d[i].HighVolume? <==> i < |hv|
      ensures d[i].UnusualTypes? <==> |hv| <= i < |hv| + |uf|
      ensures d[i].LeasesObserved? <==> |hv| + |uf| <= i
    {
      if i < |hv| {
        assert d[i] == hv[i] && hv[i] in hv;
      } else if i < |hv| + |uf| {
        assert d[i] == uf[i - |hv|];
      } else {
        assert d[i] == lf[i - |hv| - |uf|];
      }
    }
  }

  lemma DetectOrder(events: seq<Event>)
    ensures ByDescendingCount(Detect(events))
  {
    var hv := HighVolumeFindings(ValueCounts(events));
    var d := Detect(events);
    ValueCountsSorted(events);
    HighVolumeOrder(ValueCounts(events));
    HighVolumeInDetect(events);
    forall i, j | 0 <= i < j < |d| && d[i].HighVolume? && d[j].HighVolume? ensures d[i].count >= d[j].count {
      assert d[i] == hv[i] && d[j] == hv[j];
    }
  }

  /** The MAC entries of the volume rule: exact counts, each MAC once. */
  lemma HighVolumeEntries(events: seq<Event>)
    ensures forall f :: f in HighVolumeFindings(ValueCounts(events)) ==>
      f.HighVolume? && f.count == Count(SrcMacs(events), f.mac) && f.count > VolumeThreshold && f.shortMac == Label(f.mac)
    ensures DistinctMacs(HighVolumeFindings(ValueCounts(events)))
  {
    var vc := ValueCounts(events);
    ValueCountsEntries(events);
    HighVolumeDistinct(vc);
    forall f | f in HighVolumeFindings(vc) ensures f.count == Count(SrcMacs(events), f.mac) {
      assert (f.mac, f.count) in vc;
    }
  }

  /** The volume rule fires for a MAC exactly when its count is above the threshold. */
  lemma HighVolumeOfMac(events: seq<Event>, mac: string)
    ensures HighVolume(mac, Label(mac), Count(SrcMacs(events), mac)) in HighVolumeFindings(ValueCounts(events)) <==>
      Count(SrcMacs(events), mac) > VolumeThreshold
  {
    var ms := SrcMacs(events);
    var vc := ValueCounts(events);
    ValueCountsEntries(events);
    if Count(ms, mac) > VolumeThreshold {
      var k :| 0 <= k < |vc| && Keys(vc)[k] == mac;
      assert vc[k] in vc;
    }
  }

  /** In `hv + rest` with no high-volume finding in `rest`, the high-volume findings are those of `hv`, in place. */
  lemma HighVolumePrefix(d: seq<Finding>, hv: seq<Finding>, rest: seq<Finding>)
    requires d == hv + rest
    requires forall f :: f in rest ==> !f.HighVolume?
    ensures forall f :: f in d && f.HighVolume? ==> f in hv
    ensures forall i :: 0 <= i < |d| && d[i].HighVolume? ==> i < |hv| && d[i] == hv[i]
  {
    forall i | 0 <= i < |d| && d[i].HighVolume? ensures i < |hv| && d[i] == hv[i] {
    }
  }

  lemma HighVolumeInDetect(events: seq<Event>)
    ensures forall f :: f in Detect(events) && f.HighVolume? ==> f in HighVolumeFindings(ValueCounts(events))
    ensures forall f :: f in HighVolumeFindings(ValueCounts(events)) ==> f in Detect(events)
    ensures forall i :: 0 <= i < |Detect(events)| && Detect(events)[i].HighVolume? ==>
      i < |HighVolumeFindings(ValueCounts(events))| && Detect(events)[i] == HighVolumeFindings(ValueCounts(events))[i]
  {
    var rest := UnusualFinding(events) + LeaseFinding(events);
    assert Detect(events) == HighVolumeFindings(ValueCounts(events)) + rest;
    HighVolumePrefix(Detect(events), HighVolumeFindings(ValueCounts(events)), rest);
  }

  /**
   * A MAC gets a high-volume finding exactly when it sent more than five
   * packets, at most one, carrying its exact count and its eight-character label.
   */
  lemma HighVolumeExact(events: seq<Event>, mac: string)
    ensures HighVolume(mac, Label(mac), Count(SrcMacs(events), mac)) in Detect(events) <==>
      Count(SrcMacs(events), mac) > VolumeThreshold
    ensures forall f :: f in Detect(events) && f.HighVolume? ==>
      f.count == Count(SrcMacs(events), f.mac) && f.count > VolumeThreshold && f.shortMac == Label(f.mac)
    ensures forall i, j :: 0 <= i < j < |Detect(events)| && Detect(events)[i].HighVolume? && Detect(events)[j].HighVolume? ==>
      Detect(events)[i].mac != Detect(events)[j].mac
  {
    HighVolumeInDetect(events);
    HighVolumeEntries(events);
    HighVolumeOfMac(events, mac);
  }

  /** A sequence of copies of `x` counts each copy. */
  lemma {:induction false} CountConstant(xs: seq<string>, x: string)
    requires forall i :: 0 <= i < |xs| ==> xs[i] == x
    ensures Count(xs, x) == |xs|
  {
    if xs != [] {
      CountConstant(xs[1..], x);
    }
  }

  /** When every event comes from one MAC, the per-MAC table is that MAC with the event count. */
  lemma OneMacCounts(events: seq<Event>, mac: string)
    requires events != []
    requires forall e :: e in events ==> e.srcMac == mac
    ensures ValueCounts(events) == [(mac, |events|)]
  {
    var ms := SrcMacs(events);
    forall i | 0 <= i < |ms| ensures ms[i] == mac {
      assert events[i] in events;
    }
    var d := Distinct(ms);
    assert ms[0] == mac && ms[0] in d;
    assert forall k :: 0 <= k < |d| ==> d[k] == mac;
    CountNoDup(d, mac);
    CountConstant(d, mac);
    assert d == [mac];
    CountConstant(ms, mac);
    assert MacCounts(events) == [(mac, |events|)];
  }

  /**
   * When every event comes from one MAC, the volume rule reports that MAC once,
   * with the number of events, exactly when there are more than five (five give
   * none, six give one).
   */
  lemma HighVolumeBoundary(events: seq<Event>, mac: string)
    requires forall e :: e in events ==> e.srcMac == mac
    ensures HighVolumeFindings(ValueCounts(events)) ==
      if |events| > VolumeThreshold then [HighVolume(mac, Label(mac), |events|)] else []
  {
    if events == [] {
      assert ValueCounts(events) == [];
    } else {
      OneMacCounts(events, mac);
      var p := (mac, |events|);
      assert [p][1..] == [];
    }
  }

  /** The unusual-type finding, if any, names exactly the distinct non-standard types, each once. */
  lemma UnusualFindingExact(events: seq<Event>)
    ensures |UnusualFinding(events)| == 1 <==> exists e :: e in events && e.msgType !in StandardTypes
    ensures forall f :: f in UnusualFinding(events) ==>
      f.UnusualTypes? && NoDup(f.types) && forall t :: t in f.types <==> t !in StandardTypes && t in Types(events)
  {
    var ts := Types(events);
    var u := NonStandard(ts);
    if exists e :: e in events && e.msgType !in StandardTypes {
      var e :| e in events && e.msgType !in StandardTypes;
      var i :| 0 <= i < |events| && events[i] == e;
      assert ts[i] in u;
    }
    if |u| > 0 {
      assert u[0] in ts;
      var i :| 0 <= i < |ts| && ts[i] == u[0];
      assert events[i] in events;
    }
    forall t ensures t in Distinct(u) <==> t !in StandardTypes && t in ts {
      if t in Distinct(u) {
        var k :| 0 <= k < |Distinct(u)| && Distinct(u)[k] == t;
      }
      if t !in StandardTypes && t in ts {
        var i :| 0 <= i < |ts| && ts[i] == t;
        assert t in u;
        var k :| 0 <= k < |u| && u[k] == t;
      }
    }
  }

  /**
   * The unusual-type finding appears, once, exactly when some event has a type
   * outside DISCOVER, REQUEST, ACK and OFFER ("unknown" and UNKNOWN_ labels
   * included), and lists exactly those types, each once.
   */
  lemma UnusualExact(events: seq<Event>)
    ensures (exists f :: f in Detect(events) && f.UnusualTypes?) <==>
      exists e :: e in events && e.msgType !in StandardTypes
    ensures forall f :: f in Detect(events) && f.UnusualTypes? ==>
      NoDup(f.types) && forall t :: t in f.types <==> t !in StandardTypes && t in Types(events)
    ensures forall i, j :: 0 <= i < j < |Detect(events)| && Detect(events)[i].UnusualTypes? ==>
      !Detect(events)[j].UnusualTypes?
  {
    var hv := HighVolumeFindings(ValueCounts(events));
    var uf := UnusualFinding(events);
    var d := Detect(events);
    DetectLayout(events);
    UnusualFindingExact(events);
    forall f | f in d && f.UnusualTypes? ensures f in uf {
      var i :| 0 <= i < |d| && d[i] == f;
      assert d[i] == uf[i - |hv|];
    }
    if |uf| == 1 {
      assert d[|hv|] == uf[0];
    }
  }

  /** The lease finding, if any, is there exactly when some client address is not the placeholder. */
  lemma LeaseFindingExact(events: seq<Event>)
    ensures |LeaseFinding(events)| == 1 <==> exists e :: e in events && e.clientIp != NoAddress
    ensures |LeaseFinding(events)| == 1 <==> |Clients(events)| > 0
    ensures forall f :: f in LeaseFinding(events) ==> f == LeasesObserved
  {
    var cs := ClientIps(events);
    var w := Without(cs, NoAddress);
    AddressSetsExact(events);
    if exists e :: e in events && e.clientIp != NoAddress {
      var e :| e in events && e.clientIp != NoAddress;
      var i :| 0 <= i < |events| && events[i] == e;
      assert cs[i] in w;
    }
    if |w| > 0 {
      assert w[0] in cs;
      var i :| 0 <= i < |cs| && cs[i] == w[0];
      assert events[i] in events;
    }
    if |Clients(events)| > 0 {
      assert Clients(events)[0] in Clients(events);
    }
  }

  /**
   * The lease finding appears, once, exactly when some event carries a client
   * address other than "0.0.0.0", that is, when the client list is non-empty.
   */
  lemma LeaseExact(events: seq<Event>)
    ensures LeasesObserved in Detect(events) <==> exists e :: e in events && e.clientIp != NoAddress
    ensures LeasesObserved in Detect(events) <==> |Clients(events)| > 0
    ensures forall i, j :: 0 <= i < j < |Detect(events)| && Detect(events)[i] == LeasesObserved ==>
      Detect(events)[j] != LeasesObserved
  {
    var hv := HighVolumeFindings(ValueCounts(events));
    var uf := UnusualFinding(events);
    var lf := LeaseFinding(events);
    var d := Detect(events);
    DetectLayout(events);
    LeaseFindingExact(events);
    if LeasesObserved in d {
      var i :| 0 <= i < |d| && d[i] == LeasesObserved;
      assert d[i] == lf[i - |hv| - |uf|];
    }
    if |lf| == 1 {
      assert d[|d| - 1] == lf[0];
    }
  }

  /** An empty table yields no findings. */
  lemma DetectEmpty()
    ensures Detect([]) == []
  {
    assert ValueCounts([]) == [];
  }
}
