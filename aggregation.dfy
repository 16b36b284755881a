/**
 * The summary views the analyzer derives from its event table: per-type
 * counts and their most-common ranking, per-source-MAC counts, the distinct
 * client and server addresses, the top five MACs of the bar chart, and the
 * per-minute activity series.
 */
module Aggregation {
  import opened Records
  import opened Counting

  /** The `type` column. */
  function Types(events: seq<Event>): seq<string>
  {
    seq(|events|, i requires 0 <= i < |events| => events[i].msgType)
  }

  /** The `src_mac` column. */
  function SrcMacs(events: seq<Event>): seq<string>
  {
    seq(|events|, i requires 0 <= i < |events| => events[i].srcMac)
  }

  /** The `client_ip` column. */
  function ClientIps(events: seq<Event>): seq<string>
  {
    seq(|events|, i requires 0 <= i < |events| => events[i].clientIp)
  }

  /** The `server_ip` column. */
  function ServerIps(events: seq<Event>): seq<string>
  {
    seq(|events|, i requires 0 <= i < |events| => events[i].serverIp)
  }

  /** The values of `xs` other than `v`, in order (a pandas row filter `!= v`). */
  function Without(xs: seq<string>, v: string): (r: seq<string>)
    ensures forall i :: 0 <= i < |r| ==> r[i] != v && r[i] in xs
    ensures forall i :: 0 <= i < |xs| && xs[i] != v ==> xs[i] in r
  {
    if xs == [] then []
    else
      assert xs == [xs[0]] + xs[1..];
      (if xs[0] != v then [xs[0]] else []) + Without(xs[1..], v)
  }

  // ---------------------------------------------------------------- types

  /** `Counter(df['type'])`: each type with its count, in first-seen order. */
  function TypeCounts(events: seq<Event>): seq<(string, nat)> {
    Tally(Types(events))
  }

  /** `Counter.most_common()`: the type counts ranked by descending count. */
  function MostCommon(events: seq<Event>): seq<(string, nat)> {
    SortByCount(TypeCounts(events))
  }

  /**
   * Every type that occurs is listed once, with the number of events of that
   * type, and the counts add up to the number of events.
   */
  lemma TypeCountsExact(events: seq<Event>)
    ensures NoDup(Keys(TypeCounts(events)))
    ensures forall t :: t in Keys(TypeCounts(events)) <==> exists e :: e in events && e.msgType == t
    ensures forall p :: p in TypeCounts(events) ==> p.1 == Count(Types(events), p.0) && p.1 > 0
    ensures SumCounts(TypeCounts(events)) == |events|
  {
    TallyFacts(Types(events));
    TypesMembers(events);
  }

  /** The values of the `type` column are the types the events carry. */
  lemma TypesMembers(events: seq<Event>)
    ensures forall t :: t in Types(events) <==> exists e :: e in events && e.msgType == t
  {
    var ts := Types(events);
    forall e | e in events ensures e.msgType in ts {
      var i :| 0 <= i < |events| && events[i] == e;
      assert ts[i] == e.msgType;
    }
    forall t | t in ts ensures exists e :: e in events && e.msgType == t {
      var i :| 0 <= i < |ts| && ts[i] == t;
      assert events[i] in events && events[i].msgType == t;
    }
  }

  /**
   * The most-common ranking lists each type exactly once with its count, counts
   * never increase along it, and types with equal counts keep first-seen order.
   */
  lemma MostCommonRanking(events: seq<Event>)
    ensures multiset(MostCommon(events)) == multiset(TypeCounts(events))
    ensures NoDup(Keys(MostCommon(events)))
    ensures forall t :: t in Keys(MostCommon(events)) <==> t in Types(events)
    ensures forall p :: p in MostCommon(events) ==> p.1 == Count(Types(events), p.0)
    ensures NonIncreasing(MostCommon(events))
    ensures forall c :: WithCount(MostCommon(events), c) == WithCount(TypeCounts(events), c)
    ensures forall i, j :: 0 <= i < j < |TypeCounts(events)| ==>
      FirstIndex(Types(events), TypeCounts(events)[i].0) < FirstIndex(Types(events), TypeCounts(events)[j].0)
  {
    RankedTally(Types(events));
  }

  /** Sorting a tally keeps its entries, each key once, and orders the counts. */
  lemma RankedTally(xs: seq<string>)
    ensures multiset(SortByCount(Tally(xs))) == multiset(Tally(xs))
    ensures NoDup(Keys(SortByCount(Tally(xs))))
    ensures forall t :: t in Keys(SortByCount(Tally(xs))) <==> t in xs
    ensures forall p :: p in SortByCount(Tally(xs)) ==> p.1 == Count(xs, p.0)
    ensures NonIncreasing(SortByCount(Tally(xs)))
    ensures forall c :: WithCount(SortByCount(Tally(xs)), c) == WithCount(Tally(xs), c)
    ensures forall i, j :: 0 <= i < j < |Tally(xs)| ==>
      FirstIndex(xs, Tally(xs)[i].0) < FirstIndex(xs, Tally(xs)[j].0)
  {
    var t := Tally(xs);
    var r := SortByCount(t);
    TallyFacts(xs);
    SortByCountFacts(t);
    NoDupPermutation(Keys(t), Keys(r));
    forall k ensures k in Keys(r) <==> k in Keys(t) {
      assert k in multiset(Keys(r)) <==> k in multiset(Keys(t));
    }
    forall p | p in r ensures p.1 == Count(xs, p.0) {
      assert p in multiset(r);
    }
  }

  // ---------------------------------------------------------------- MACs

  /** `df['src_mac'].unique()` with the row count of each: per-MAC counts in first-seen order. */
  function MacCounts(events: seq<Event>): seq<(string, nat)> {
    Tally(SrcMacs(events))
  }

  /**
   * Every source MAC is listed once, with the number of events it sent, and
   * the counts add up to the number of events.
   */
  lemma MacCountsExact(events: seq<Event>)
    ensures NoDup(Keys(MacCounts(events)))
    ensures forall m :: m in Keys(MacCounts(events)) <==> exists e :: e in events && e.srcMac == m
    ensures forall p :: p in MacCounts(events) ==> p.1 == Count(SrcMacs(events), p.0) && p.1 > 0
    ensures SumCounts(MacCounts(events)) == |events|
  {
    TallyFacts(SrcMacs(events));
    SrcMacsMembers(events);
  }

  /** The values of the `src_mac` column are the source MACs the events carry. */
  lemma SrcMacsMembers(events: seq<Event>)
    ensures forall m :: m in SrcMacs(events) <==> exists e :: e in events && e.srcMac == m
  {
    var ms := SrcMacs(events);
    forall e | e in events ensures e.srcMac in ms {
      var i :| 0 <= i < |events| && events[i] == e;
      assert ms[i] == e.srcMac;
    }
    forall m | m in ms ensures exists e :: e in events && e.srcMac == m {
      var i :| 0 <= i < |ms| && ms[i] == m;
      assert events[i] in events && events[i].srcMac == m;
    }
  }

  /** `df['src_mac'].value_counts()`: per-MAC counts by descending count. */
  function ValueCounts(events: seq<Event>): seq<(string, nat)> {
    SortByCount(MacCounts(events))
  }

  /** How many MACs the bar chart shows. */
  const TopCount: nat := 5
  /** How many characters of a MAC the chart and the anomaly report show. */
  const LabelWidth: nat := 8

  /** `mac[:8]`: the first eight characters, or the whole string when shorter. */
  function Label(mac: string): (l: string)
    ensures |l| == if |mac| < LabelWidth then |mac| else LabelWidth
    ensures mac == l + mac[|l|..]
  {
    if |mac| < LabelWidth then mac else mac[..LabelWidth]
  }

  /** `value_counts().head(5)`: the five most active MACs with their counts. */
  function TopMacs(events: seq<Event>): seq<(string, nat)> {
    var vc := ValueCounts(events);
    if |vc| <= TopCount then vc else vc[..TopCount]
  }

  /** The bars of the top-five chart: shortened MAC label and count. */
  function TopMacBars(events: seq<Event>): seq<(string, nat)> {
    var top := TopMacs(events);
    seq(|top|, i requires 0 <= i < |top| => (Label(top[i].0), top[i].1))
  }

  lemma ValueCountsLength(events: seq<Event>)
    ensures |ValueCounts(events)| == |MacCounts(events)|
  {
    assert |multiset(ValueCounts(events))| == |multiset(MacCounts(events))|;
  }

  lemma ValueCountsSorted(events: seq<Event>)
    ensures NonIncreasing(ValueCounts(events))
  {
    SortByCountFacts(MacCounts(events));
  }

  /** `value_counts()` lists every source MAC once, with its exact count. */
  lemma ValueCountsEntries(events: seq<Event>)
    ensures NoDup(Keys(ValueCounts(events)))
    ensures forall p :: p in ValueCounts(events) ==> p.0 in SrcMacs(events) && p.1 == Count(SrcMacs(events), p.0)
    ensures forall m :: m in SrcMacs(events) ==> m in Keys(ValueCounts(events))
  {
    RankedTally(SrcMacs(events));
  }

  /** The top view holds min(5, number of MACs) entries, ordered by non-increasing count. */
  lemma TopMacsShape(events: seq<Event>)
    ensures |TopMacs(events)| <= TopCount
    ensures |TopMacs(events)| == if |MacCounts(events)| < TopCount then |MacCounts(events)| else TopCount
    ensures NonIncreasing(TopMacs(events))
  {
    ValueCountsLength(events);
    ValueCountsSorted(events);
  }

  lemma TopMacsPrefix(events: seq<Event>)
    ensures forall p :: p in TopMacs(events) ==> p in ValueCounts(events)
    ensures NoDup(Keys(ValueCounts(events))) ==> NoDup(Keys(TopMacs(events)))
  {
    var vc := ValueCounts(events);
    PrefixFacts(vc, |TopMacs(events)|);
    assert vc[..|vc|] == vc;
  }

  /** Each MAC of the top view is a real source MAC, listed once, with its exact event count. */
  lemma TopMacsEntries(events: seq<Event>)
    ensures NoDup(Keys(TopMacs(events)))
    ensures forall p :: p in TopMacs(events) ==> p.0 in SrcMacs(events) && p.1 == Count(SrcMacs(events), p.0)
  {
    ValueCountsEntries(events);
    TopMacsPrefix(events);
  }

  /**
   * The chart data in terms of the events: min(5, number of MACs) bars with
   * non-increasing heights; bar `i` belongs to a distinct source MAC, shows its
   * 8-character label and its exact event count; and no MAC without a bar has
   * more events than any MAC with one.
   */
  lemma TopMacBarsExact(events: seq<Event>)
    ensures |TopMacBars(events)| == if |MacCounts(events)| < TopCount then |MacCounts(events)| else TopCount
    ensures NonIncreasing(TopMacBars(events))
    ensures NoDup(Keys(TopMacs(events)))
    ensures forall i :: 0 <= i < |TopMacBars(events)| ==>
      TopMacs(events)[i].0 in SrcMacs(events) &&
      TopMacBars(events)[i] == (Label(TopMacs(events)[i].0), Count(SrcMacs(events), TopMacs(events)[i].0))
    ensures forall m, i :: m in SrcMacs(events) && m !in Keys(TopMacs(events)) && 0 <= i < |TopMacBars(events)| ==>
      TopMacBars(events)[i].1 >= Count(SrcMacs(events), m)
  {
    var top := TopMacs(events);
    var bars := TopMacBars(events);
    TopMacsShape(events);
    TopMacsEntries(events);
    TopMacsDominate(events);
    forall i | 0 <= i < |bars|
      ensures top[i].0 in SrcMacs(events) && bars[i] == (Label(top[i].0), Count(SrcMacs(events), top[i].0))
    {
      assert top[i] in top;
    }
  }

  /** No MAC left out of the top view has a larger count than any MAC in it. */
  lemma TopMacsDominate(events: seq<Event>)
    ensures forall m, i :: m in SrcMacs(events) && m !in Keys(TopMacs(events)) && 0 <= i < |TopMacs(events)| ==>
      TopMacs(events)[i].1 >= Count(SrcMacs(events), m)
  {
    var vc := ValueCounts(events);
    var n := |TopMacs(events)|;
    ValueCountsEntries(events);
    ValueCountsSorted(events);
    assert TopMacs(events) == vc[..n];
    PrefixDominates(vc, n, SrcMacs(events));
  }

  // ---------------------------------------------------------------- addresses

  /** Distinct non-placeholder client addresses, in first-seen order. */
  function Clients(events: seq<Event>): seq<string> {
    Distinct(Without(ClientIps(events), NoAddress))
  }

  /** Distinct non-placeholder server addresses, in first-seen order. */
  function Servers(events: seq<Event>): seq<string> {
    Distinct(Without(ServerIps(events), NoAddress))
  }

  /**
   * The client list holds exactly the client addresses other than "0.0.0.0",
   * each once; the server list likewise.
   */
  lemma AddressSetsExact(events: seq<Event>)
    ensures NoDup(Clients(events)) && NoDup(Servers(events))
    ensures NoAddress !in Clients(events) && NoAddress !in Servers(events)
    ensures forall ip :: ip in Clients(events) <==>
      ip != NoAddress && exists e :: e in events && e.clientIp == ip
    ensures forall ip :: ip in Servers(events) <==>
      ip != NoAddress && exists e :: e in events && e.serverIp == ip
  {
    var cs, ss := ClientIps(events), ServerIps(events);
    var wc, ws := Without(cs, NoAddress), Without(ss, NoAddress);
    forall ip ensures ip in Clients(events) <==> ip != NoAddress && exists e :: e in events && e.clientIp == ip {
      if ip in Clients(events) {
        var k :| 0 <= k < |Clients(events)| && Clients(events)[k] == ip;
        var i :| 0 <= i < |wc| && wc[i] == ip;
        var j :| 0 <= j < |cs| && cs[j] == ip;
        assert events[j] in events;
      }
      if ip != NoAddress && exists e :: e in events && e.clientIp == ip {
        var e :| e in events && e.clientIp == ip;
        var j :| 0 <= j < |events| && events[j] == e;
        assert cs[j] == ip;
        var i :| 0 <= i < |wc| && wc[i] == ip;
      }
    }
    forall ip ensures ip in Servers(events) <==> ip != NoAddress && exists e :: e in events && e.serverIp == ip {
      if ip in Servers(events) {
        var k :| 0 <= k < |Servers(events)| && Servers(events)[k] == ip;
        var i :| 0 <= i < |ws| && ws[i] == ip;
        var j :| 0 <= j < |ss| && ss[j] == ip;
        assert events[j] in events;
      }
      if ip != NoAddress && exists e :: e in events && e.serverIp == ip {
        var e :| e in events && e.serverIp == ip;
        var j :| 0 <= j < |events| && events[j] == e;
        assert ss[j] == ip;
        var i :| 0 <= i < |ws| && ws[i] == ip;
      }
    }
  }

  /** Repeated and placeholder client addresses collapse to the one real address. */
  lemma ClientsExample(events: seq<Event>)
    requires ClientIps(events) == ["0.0.0.0", "10.0.0.5", "10.0.0.5", "0.0.0.0"]
    ensures Clients(events) == ["10.0.0.5"]
  {
    var a: string, b: string := "0.0.0.0", "10.0.0.5";
    assert a != b by { assert a[0] != b[0]; }
    assert |[a][1..]| == 0 && [b, a][1..] == [a] && [b, b, a][1..] == [b, a] && [a, b, b, a][1..] == [b, b, a];
    assert Without([a], NoAddress) == [];
    assert Without([b, a], NoAddress) == [b];
    assert Without([b, b, a], NoAddress) == [b, b];
    assert Without([a, b, b, a], NoAddress) == [b, b];
    assert [b, b][..1] == [b];
  }

  // ---------------------------------------------------------------- time

  /** Seconds in the bucket of the activity chart. */
  const MinuteSeconds: int := 60

  /** `dt.floor('min')` on a time in seconds: the start of its minute. */
  function MinuteStart(t: int): (s: int)
    ensures s <= t < s + MinuteSeconds
    ensures s % MinuteSeconds == 0
    ensures forall s' :: s' <= t < s' + MinuteSeconds && s' % MinuteSeconds == 0 ==> s' == s
  {
    t - t % MinuteSeconds
  }

  /** The `min` column. */
  function Starts(events: seq<Event>): seq<int>
  {
    seq(|events|, i requires 0 <= i < |events| => MinuteStart(events[i].time))
  }

  /** `df.groupby('min').size()`: each minute that has events, with its event count, oldest first. */
  function TimeSeries(events: seq<Event>): seq<(int, nat)> {
    TallyOver(SortAscending(Distinct(Starts(events))), Starts(events))
  }

  /** The minutes of the series, oldest first, each once: the distinct minute starts, sorted. */
  lemma TimeSeriesKeys(events: seq<Event>)
    ensures NoDup(Keys(TimeSeries(events)))
    ensures Ascending(Keys(TimeSeries(events)))
    ensures forall s :: s in Keys(TimeSeries(events)) <==> s in Starts(events)
  {
    var ss := Starts(events);
    var d := Distinct(ss);
    var keys := SortAscending(d);
    SortAscendingSorted(d);
    NoDupPermutation(d, keys);
    assert Keys(TimeSeries(events)) == keys;
    forall s ensures s in keys <==> s in ss {
      assert s in keys <==> s in multiset(keys);
      assert s in d <==> s in multiset(d);
    }
  }

  lemma TimeSeriesIncreasing(events: seq<Event>)
    ensures forall i, j :: 0 <= i < j < |TimeSeries(events)| ==> TimeSeries(events)[i].0 < TimeSeries(events)[j].0
  {
    var ts := TimeSeries(events);
    var keys := Keys(ts);
    TimeSeriesKeys(events);
    forall i, j | 0 <= i < j < |ts| ensures ts[i].0 < ts[j].0 {
      assert keys[i] <= keys[j] && keys[i] != keys[j];
    }
  }

  /** Every minute start is a multiple of 60. */
  lemma StartsAligned(events: seq<Event>)
    ensures forall s :: s in Starts(events) ==> s % MinuteSeconds == 0
  {
  }

  lemma TimeSeriesCounts(events: seq<Event>)
    ensures forall p :: p in TimeSeries(events) ==> p.0 % MinuteSeconds == 0 && p.1 == Count(Starts(events), p.0) && p.1 > 0
  {
    var ss := Starts(events);
    var keys := SortAscending(Distinct(ss));
    TimeSeriesKeys(events);
    StartsAligned(events);
    TallyOverEntries(keys, ss);
    assert forall s :: s in keys ==> s in ss;
  }

  lemma TimeSeriesSum(events: seq<Event>)
    ensures SumCounts(TimeSeries(events)) == |events|
  {
    SumTallySorted(Starts(events));
  }

  /**
   * The series has one entry per minute that holds events, in strictly
   * increasing order, each counting the events of its minute; the counts add
   * up to the number of events.
   */
  lemma TimeSeriesExact(events: seq<Event>)
    ensures forall i, j :: 0 <= i < j < |TimeSeries(events)| ==> TimeSeries(events)[i].0 < TimeSeries(events)[j].0
    ensures forall s :: s in Keys(TimeSeries(events)) <==> exists e :: e in events && MinuteStart(e.time) == s
    ensures forall p :: p in TimeSeries(events) ==> p.0 % MinuteSeconds == 0 && p.1 == Count(Starts(events), p.0) && p.1 > 0
    ensures SumCounts(TimeSeries(events)) == |events|
  {
    TimeSeriesIncreasing(events);
    TimeSeriesKeys(events);
    TimeSeriesCounts(events);
    TimeSeriesSum(events);
    StartsMembers(events);
  }

  /** The values of the `min` column are the minute starts of the events' times. */
  lemma StartsMembers(events: seq<Event>)
    ensures forall s :: s in Starts(events) <==> exists e :: e in events && MinuteStart(e.time) == s
  {
    var ss := Starts(events);
    forall e | e in events ensures MinuteStart(e.time) in ss {
      var i :| 0 <= i < |events| && events[i] == e;
      assert ss[i] == MinuteStart(e.time);
    }
    forall s | s in ss ensures exists e :: e in events && MinuteStart(e.time) == s {
      var i :| 0 <= i < |ss| && ss[i] == s;
      assert events[i] in events && MinuteStart(events[i].time) == s;
    }
  }

  /** With no events every view is empty. */
  lemma EmptyViews()
    ensures TypeCounts([]) == [] && MostCommon([]) == [] && MacCounts([]) == []
    ensures Clients([]) == [] && Servers([]) == [] && TopMacs([]) == [] && TimeSeries([]) == []
  {
  }
}
