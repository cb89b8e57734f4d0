/** Peer advertisements: the text a responder sends and what a sender makes of it. */
module Advertisement {
  import opened Basics
  import opened Decimal
  import opened Ipv4

  const MAXIMUM_ADVERTISEMENT_BYTES: nat := 512

  const ADVERTISEMENT_PREFIX: string := "HLINK_PEER_V2 "

  datatype PeerEndpoint = PeerEndpoint(host: string, transferPort: nat, probePort: nat, parallelStreams: nat)

  datatype DiscoveredPeer =
    DiscoveredPeer(endpoint: PeerEndpoint, displayName: string, sourceAddress: string, bytesPerSecond: real)

  /** The advertisement of a responder. */
  function Advertise(transferPort: nat, probePort: nat, parallelStreams: nat, displayName: string): string {
    ADVERTISEMENT_PREFIX + Print(transferPort) + " " + Print(probePort) + " " + Print(parallelStreams) + " "
    + displayName
  }

  /** Reads an advertisement that arrived from `source`; the host is the source, never the text. */
  function ParseAdvertisement(message: string, source: string): Option<DiscoveredPeer> {
    if |message| > MAXIMUM_ADVERTISEMENT_BYTES || !(ADVERTISEMENT_PREFIX <= message) || Ipv4Octets(source) == None then
      None
    else
      ParseFields(message[|ADVERTISEMENT_PREFIX|..], source)
  }

  function ParseFields(fields: string, source: string): Option<DiscoveredPeer> {
    var transferEnd := Find(fields, ' ', 0);
    if transferEnd == -1 then None
    else
      var probeEnd := Find(fields, ' ', transferEnd + 1);
      if probeEnd == -1 then None
      else
        var streamsEnd := Find(fields, ' ', probeEnd + 1);
        if streamsEnd == -1 || streamsEnd + 1 == |fields| then None
        else
          MakePeer(fields[..transferEnd], fields[transferEnd + 1..probeEnd], fields[probeEnd + 1..streamsEnd],
                   fields[streamsEnd + 1..], source)
  }

  function MakePeer(transfer: string, probe: string, streams: string, name: string,
                    source: string): Option<DiscoveredPeer>
  {
    var transferPort := ParseDecimal(transfer, U32_MODULUS);
    var probePort := ParseDecimal(probe, U32_MODULUS);
    var parallelStreams := ParseDecimal(streams, U32_MODULUS);
    if transferPort == None || probePort == None || parallelStreams == None
       || transferPort.value == 0 || transferPort.value > MAX_PORT || probePort.value == 0 || probePort.value > MAX_PORT
       || parallelStreams.value == 0 then
      None
    else
      Some(DiscoveredPeer(PeerEndpoint(source, transferPort.value, probePort.value, parallelStreams.value),
                          name, source, 0.0))
  }

  lemma {:induction false} FindIs(s: string, c: char, from: nat, k: nat)
    requires from <= k < |s| && s[k] == c && forall i | from <= i < k :: s[i] != c
    ensures Find(s, c, from) == k
  {
  }

  /** Three fields without spaces and a rest that may contain spaces are found as they are. */
  lemma {:induction false} FieldsFound(transfer: string, probe: string, streams: string, name: string, source: string)
    requires ' ' !in transfer && ' ' !in probe && ' ' !in streams && name != []
    ensures ParseFields(transfer + " " + probe + " " + streams + " " + name, source) ==
            MakePeer(transfer, probe, streams, name, source)
  {
    hide MakePeer;
    var fields := transfer + " " + probe + " " + streams + " " + name;
    var t := |transfer|;
    var p := t + 1 + |probe|;
    var q := p + 1 + |streams|;
    assert fields[..t] == transfer;
    assert fields[t + 1..p] == probe;
    assert fields[p + 1..q] == streams;
    assert fields[q + 1..] == name;
    forall i | t + 1 <= i < p
      ensures fields[i] != ' '
    {
      assert fields[i] == probe[i - t - 1];
    }
    forall i | p + 1 <= i < q
      ensures fields[i] != ' '
    {
      assert fields[i] == streams[i - p - 1];
    }
    FindIs(fields, ' ', 0, t);
    FindIs(fields, ' ', t + 1, p);
    FindIs(fields, ' ', p + 1, q);
  }

  /** The fields of an advertisement from `source` say what `peer` is. */
  ghost predicate Says(t: string, p: string, n: string, name: string, source: string, peer: DiscoveredPeer) {
    && IsDecimal(t) && 1 <= Value(t) <= 65535 && IsDecimal(p) && 1 <= Value(p) <= 65535
    && IsDecimal(n) && 1 <= Value(n) < 0x1_0000_0000 && name != []
    && peer.endpoint.host == source && peer.sourceAddress == source && peer.displayName == name
    && peer.endpoint.transferPort == Value(t) && peer.endpoint.probePort == Value(p)
    && peer.endpoint.parallelStreams == Value(n) && peer.bytesPerSecond == 0.0
  }

  lemma {:induction false} MakePeerSays(t: string, p: string, n: string, name: string, source: string,
                                        peer: DiscoveredPeer)
    ensures name != [] && MakePeer(t, p, n, name, source) == Some(peer) <==> Says(t, p, n, name, source, peer)
  {
    hide Value;
  }

  /** Exactness: the accepted messages are those of at most 512 characters made of the prefix, three
      decimal fields in range and a nonempty name, from a valid source address. */
  lemma {:induction false} AdvertisementExact(message: string, source: string, peer: DiscoveredPeer)
    ensures ParseAdvertisement(message, source) == Some(peer) <==>
            && |message| <= 512 && Ipv4Octets(source).Some?
            && exists t, p, n, name ::
                 message == "HLINK_PEER_V2 " + (t + " " + p + " " + n + " " + name) && Says(t, p, n, name, source, peer)
  {
    hide Value, Ipv4Octets, MakePeer, ParseFields, ParseAdvertisement, Says;
    if ParseAdvertisement(message, source) == Some(peer) {
      var t, p, n, name := AcceptedFields(message, source);
      MakePeerSays(t, p, n, name, source, peer);
    }
    forall t, p, n, name |
      && message == "HLINK_PEER_V2 " + (t + " " + p + " " + n + " " + name) && Says(t, p, n, name, source, peer)
      && |message| <= 512 && Ipv4Octets(source).Some?
      ensures ParseAdvertisement(message, source) == Some(peer)
    {
      MakePeerSays(t, p, n, name, source, peer);
      FieldsAccepted(message, source, t, p, n, name);
    }
  }

  lemma {:induction false} AcceptedFields(message: string, source: string)
    returns (t: string, p: string, n: string, name: string)
    requires ParseAdvertisement(message, source).Some?
    ensures message == ADVERTISEMENT_PREFIX + (t + " " + p + " " + n + " " + name) && name != []
    ensures MakePeer(t, p, n, name, source) == ParseAdvertisement(message, source)
    ensures |message| <= MAXIMUM_ADVERTISEMENT_BYTES && Ipv4Octets(source).Some?
  {
    hide Ipv4Octets, MakePeer, Find;
    var fields := message[|ADVERTISEMENT_PREFIX|..];
    var i := Find(fields, ' ', 0);
    var j := Find(fields, ' ', i + 1);
    var k := Find(fields, ' ', j + 1);
    t, p, n, name := fields[..i], fields[i + 1..j], fields[j + 1..k], fields[k + 1..];
    assert fields == t + " " + p + " " + n + " " + name;
  }

  lemma {:induction false} FieldsAccepted(message: string, source: string, t: string, p: string, n: string,
                                          name: string)
    requires message == ADVERTISEMENT_PREFIX + (t + " " + p + " " + n + " " + name) && name != []
    requires MakePeer(t, p, n, name, source).Some?
    requires |message| <= MAXIMUM_ADVERTISEMENT_BYTES && Ipv4Octets(source).Some?
    ensures ParseAdvertisement(message, source) == MakePeer(t, p, n, name, source)
  {
    hide Ipv4Octets, ParseFields, MakePeer;
    DecimalFields(t, p, n, name, source);
    FieldsFound(t, p, n, name, source);
    assert message[|ADVERTISEMENT_PREFIX|..] == t + " " + p + " " + n + " " + name;
  }

  lemma {:induction false} DecimalFields(t: string, p: string, n: string, name: string, source: string)
    requires MakePeer(t, p, n, name, source).Some?
    ensures ' ' !in t && ' ' !in p && ' ' !in n
  {
    NoDot(t);
    NoDot(p);
    NoDot(n);
  }

  /** What a responder may advertise. */
  ghost predicate Advertisable(transferPort: nat, probePort: nat, parallelStreams: nat, displayName: string) {
    && 1 <= transferPort <= MAX_PORT && 1 <= probePort <= MAX_PORT
    && 1 <= parallelStreams < U32_MODULUS && displayName != []
  }

  /** Round trip: what a responder prints is read back exactly, names with spaces included; the
      host is the address the message came from. */
  lemma {:induction false} AdvertisementRoundTrip(transferPort: nat, probePort: nat, parallelStreams: nat,
                                                  displayName: string, source: string)
    requires Advertisable(transferPort, probePort, parallelStreams, displayName)
    requires |Advertise(transferPort, probePort, parallelStreams, displayName)| <= MAXIMUM_ADVERTISEMENT_BYTES
    requires Ipv4Octets(source).Some?
    ensures ParseAdvertisement(Advertise(transferPort, probePort, parallelStreams, displayName), source) ==
            Some(DiscoveredPeer(PeerEndpoint(source, transferPort, probePort, parallelStreams),
                                displayName, source, 0.0))
  {
    hide ParseFields, Ipv4Octets, Print, Value;
    var message := Advertise(transferPort, probePort, parallelStreams, displayName);
    var t, p, n := Print(transferPort), Print(probePort), Print(parallelStreams);
    assert message[|ADVERTISEMENT_PREFIX|..] == t + " " + p + " " + n + " " + displayName;
    NoDot(t);
    NoDot(p);
    NoDot(n);
    FieldsFound(t, p, n, displayName, source);
    PrintValue(transferPort);
    PrintValue(probePort);
    PrintValue(parallelStreams);
  }

  /** Whatever is accepted is well-formed: ports in 1..65535, a positive stream count, a name, and
      the sender's own valid IPv4 address as host and source. */
  lemma {:induction false} AcceptedIsWellFormed(message: string, source: string)
    requires ParseAdvertisement(message, source).Some?
    ensures var peer := ParseAdvertisement(message, source).value;
            && Advertisable(peer.endpoint.transferPort, peer.endpoint.probePort, peer.endpoint.parallelStreams,
                            peer.displayName)
            && peer.endpoint.host == peer.sourceAddress == source && Ipv4Octets(source).Some?
  {
    hide Value;
  }

  /** Printing what was accepted gives an advertisement that is accepted again with the same
      result, even if the original had leading zeros. */
  lemma {:induction false} ParsePrintParse(message: string, source: string)
    requires ParseAdvertisement(message, source).Some?
    ensures var peer := ParseAdvertisement(message, source).value;
            var printed := Advertise(peer.endpoint.transferPort, peer.endpoint.probePort,
                                     peer.endpoint.parallelStreams, peer.displayName);
            |printed| <= |message| && ParseAdvertisement(printed, source) == Some(peer)
  {
    hide Print, Value, Find, Ipv4Octets;
    AcceptedIsWellFormed(message, source);
    var fields := message[|ADVERTISEMENT_PREFIX|..];
    var t := Find(fields, ' ', 0);
    var p := Find(fields, ' ', t + 1);
    var q := Find(fields, ' ', p + 1);
    PrintNoLonger(fields[..t]);
    PrintNoLonger(fields[t + 1..p]);
    PrintNoLonger(fields[p + 1..q]);
    var peer := ParseAdvertisement(message, source).value;
    AdvertisementRoundTrip(peer.endpoint.transferPort, peer.endpoint.probePort, peer.endpoint.parallelStreams,
                           peer.displayName, source);
  }
}
