/** Turns the decoded packets of a capture into DHCP event records. */
module Extraction {
  import opened Records
  import opened MessageTypes

  /** The record a packet with DHCP layer `d` yields. */
  function EventOf(p: Packet, d: DhcpLayer): Event {
    Event(
      p.sniffTime,
      if p.eth.Some? then p.eth.value.src else Unknown,
      if p.eth.Some? then p.eth.value.dst else Unknown,
      if d.messageType.Some? then Resolve(d.messageType.value) else Unknown,
      d.requestedIp.GetOr(NoAddress),
      d.serverId.GetOr(NoAddress))
  }

  /** The events of a capture: one per packet with a DHCP layer, in capture order. */
  function ExtractAll(cap: seq<Packet>): (events: seq<Event>)
    ensures |events| <= |cap|
  {
    if cap == [] then []
    else
      var init, last := cap[..|cap| - 1], cap[|cap| - 1];
      ExtractAll(init) + (if last.dhcp.Some? then [EventOf(last, last.dhcp.value)] else [])
  }

  /** The packets of a capture that have a DHCP layer, in capture order. */
  function DhcpPackets(cap: seq<Packet>): (ps: seq<Packet>)
    ensures forall i :: 0 <= i < |ps| ==> ps[i].dhcp.Some?
    ensures forall p :: p in ps <==> p in cap && p.dhcp.Some?
  {
    if cap == [] then []
    else
      var init, last := cap[..|cap| - 1], cap[|cap| - 1];
      assert cap == init + [last];
      DhcpPackets(init) + (if last.dhcp.Some? then [last] else [])
  }

  /**
   * Extraction is a filter followed by a map: the events are exactly the
   * records of the DHCP packets, one each, in capture order.
   */
  lemma {:induction false} ExtractIsFilterMap(cap: seq<Packet>)
    ensures |ExtractAll(cap)| == |DhcpPackets(cap)| <= |cap|
    ensures forall k :: 0 <= k < |ExtractAll(cap)| ==>
      ExtractAll(cap)[k] == EventOf(DhcpPackets(cap)[k], DhcpPackets(cap)[k].dhcp.value)
  {
    if cap != [] {
      ExtractIsFilterMap(cap[..|cap| - 1]);
    }
  }

  /** Extraction distributes over concatenated captures, so it keeps their order. */
  lemma {:induction false} ExtractAppend(a: seq<Packet>, b: seq<Packet>)
    ensures ExtractAll(a + b) == ExtractAll(a) + ExtractAll(b)
  {
    if b == [] {
      assert a + b == a;
    } else {
      var init := b[..|b| - 1];
      assert (a + b)[..|a + b| - 1] == a + init;
      assert (a + b)[|a + b| - 1] == b[|b| - 1];
      ExtractAppend(a, init);
    }
  }

  /** A single packet yields one event exactly when it has a DHCP layer. */
  lemma ExtractSingle(p: Packet)
    ensures |ExtractAll([p])| == 1 <==> p.dhcp.Some?
    ensures |ExtractAll([p])| == 0 <==> p.dhcp.None?
  {
    assert [p][..0] == [];
  }

  /**
   * The placeholders of a record: MACs are "unknown" without a link layer, the
   * type is "unknown" exactly when the Message Type option is absent, and each
   * IP is "0.0.0.0" without its option and the option's value otherwise.
   */
  lemma EventDefaults(p: Packet, d: DhcpLayer)
    ensures EventOf(p, d).time == p.sniffTime
    ensures p.eth.None? ==> EventOf(p, d).srcMac == Unknown && EventOf(p, d).dstMac == Unknown
    ensures p.eth.Some? ==> EventOf(p, d).srcMac == p.eth.value.src && EventOf(p, d).dstMac == p.eth.value.dst
    ensures EventOf(p, d).msgType == Unknown <==> d.messageType.None?
    ensures d.messageType.Some? ==> EventOf(p, d).msgType == Resolve(d.messageType.value)
    ensures d.requestedIp.None? ==> EventOf(p, d).clientIp == NoAddress
    ensures d.requestedIp.Some? ==> EventOf(p, d).clientIp == d.requestedIp.value
    ensures d.serverId.None? ==> EventOf(p, d).serverIp == NoAddress
    ensures d.serverId.Some? ==> EventOf(p, d).serverIp == d.serverId.value
    // The placeholders read as "absent" unless a present field holds the placeholder text itself.
    ensures (p.eth.None? || p.eth.value.src != Unknown) ==> (EventOf(p, d).srcMac == Unknown <==> p.eth.None?)
    ensures (p.eth.None? || p.eth.value.dst != Unknown) ==> (EventOf(p, d).dstMac == Unknown <==> p.eth.None?)
    ensures (d.requestedIp.None? || d.requestedIp.value != NoAddress) ==>
      (EventOf(p, d).clientIp == NoAddress <==> d.requestedIp.None?)
    ensures (d.serverId.None? || d.serverId.value != NoAddress) ==>
      (EventOf(p, d).serverIp == NoAddress <==> d.serverId.None?)
  {
  }

  /**
   * The capture loop: for each packet with a DHCP layer, start a record with
   * placeholders, overwrite the type and IPs whose options are present, and
   * append it.
   */
  method Extract(cap: seq<Packet>) returns (data: seq<Event>)
    ensures data == ExtractAll(cap)
  {
    data := [];
    for i := 0 to |cap|
      invariant data == ExtractAll(cap[..i])
    {
      var pkt := cap[i];
      assert cap[..i + 1][..i] == cap[..i];
      if pkt.dhcp.Some? {
        var d := pkt.dhcp.value;
        var info := Event(
          pkt.sniffTime,
          if pkt.eth.Some? then pkt.eth.value.src else Unknown,
          if pkt.eth.Some? then pkt.eth.value.dst else Unknown,
          Unknown, NoAddress, NoAddress);
        if d.messageType.Some? {
          info := info.(msgType := Resolve(d.messageType.value));
        }
        if d.requestedIp.Some? {
          info := info.(clientIp := d.requestedIp.value);
        }
        if d.serverId.Some? {
          info := info.(serverIp := d.serverId.value);
        }
        data := data + [info];
      }
    }
    assert cap[..|cap|] == cap;
  }
}
