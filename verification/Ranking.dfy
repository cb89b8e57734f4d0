/** Choosing the fastest peer: de-duplication of the replies, one probe per distinct peer, and a
    ranking that does not depend on the order in which the replies arrived. */
module Ranking {
  import opened Basics
  import opened Sequences
  import opened Sorting
  import opened Decimal
  import opened Ipv4
  import opened Advertisement

  // ----- The comparator -----

  /** std::string's order. */
  predicate TextLess(s: string, t: string) {
    if s == [] || t == [] then s == [] && t != []
    else s[0] < t[0] || (s[0] == t[0] && TextLess(s[1..], t[1..]))
  }

  predicate OctetsLess(x: Octets, y: Octets) {
    if x.a != y.a then x.a < y.a
    else if x.b != y.b then x.b < y.b
    else if x.c != y.c then x.c < y.c
    else x.d < y.d
  }

  predicate SourceAddressPrecedes(left: DiscoveredPeer, right: DiscoveredPeer) {
    var x, y := Ipv4Octets(left.sourceAddress), Ipv4Octets(right.sourceAddress);
    if x.Some? && y.Some? && x != y then OctetsLess(x.value, y.value)
    else if left.sourceAddress != right.sourceAddress then TextLess(left.sourceAddress, right.sourceAddress)
    else if left.endpoint.transferPort != right.endpoint.transferPort then
      left.endpoint.transferPort < right.endpoint.transferPort
    else left.endpoint.probePort < right.endpoint.probePort
  }

  /** The order of the ranking: higher rate first, then by address and ports. */
  predicate Faster(left: DiscoveredPeer, right: DiscoveredPeer) {
    if left.bytesPerSecond != right.bytesPerSecond then left.bytesPerSecond > right.bytesPerSecond
    else SourceAddressPrecedes(left, right)
  }

  predicate HasAddress(peer: DiscoveredPeer) {
    Ipv4Octets(peer.sourceAddress).Some?
  }

  /** What distinguishes peers. */
  function Key(peer: DiscoveredPeer): (string, nat, nat) {
    (peer.endpoint.host, peer.endpoint.transferPort, peer.endpoint.probePort)
  }

  lemma {:induction false} TextLessTotal(s: string, t: string)
    ensures !TextLess(s, s)
    ensures TextLess(s, t) ==> !TextLess(t, s)
    ensures s != t ==> TextLess(s, t) || TextLess(t, s)
  {
    if s != [] {
      TextLessTotal(s[1..], if t != [] then t[1..] else []);
      if t != [] && s[0] == t[0] && s != t {
        assert s == [s[0]] + s[1..] && t == [t[0]] + t[1..];
      }
    }
  }

  lemma {:induction false} TextLessTransitive(s: string, t: string, u: string)
    requires TextLess(s, t) && TextLess(t, u)
    ensures TextLess(s, u)
  {
    if s != [] && s[0] == t[0] && t[0] == u[0] {
      TextLessTransitive(s[1..], t[1..], u[1..]);
    }
  }

  /** Two addresses x before y, and a text z that is no address but lies between y and x as a text. */
  predicate Circle(x: DiscoveredPeer, y: DiscoveredPeer, z: DiscoveredPeer) {
    && HasAddress(x) && HasAddress(y) && !HasAddress(z)
    && OctetsLess(Ipv4Octets(x.sourceAddress).value, Ipv4Octets(y.sourceAddress).value)
    && TextLess(y.sourceAddress, z.sourceAddress) && TextLess(z.sourceAddress, x.sourceAddress)
  }

  ghost predicate NoCircle(peers: seq<DiscoveredPeer>) {
    forall x, y, z | x in peers && y in peers && z in peers
                     && x.bytesPerSecond == y.bytesPerSecond == z.bytesPerSecond :: !Circle(x, y, z)
  }

  /** On any texts, one of two peers that differ in source address, transfer port or probe port
      precedes the other, and never both. */
  lemma {:induction false} PrecedesTotal(x: DiscoveredPeer, y: DiscoveredPeer)
    ensures !SourceAddressPrecedes(x, x)
    ensures SourceAddressPrecedes(x, y) ==> !SourceAddressPrecedes(y, x)
    ensures (x.sourceAddress, x.endpoint.transferPort, x.endpoint.probePort)
            != (y.sourceAddress, y.endpoint.transferPort, y.endpoint.probePort) ==>
              SourceAddressPrecedes(x, y) || SourceAddressPrecedes(y, x)
  {
    hide Ipv4Octets;
    TextLessTotal(x.sourceAddress, y.sourceAddress);
  }

  /** Without a circle the comparison is transitive. */
  lemma {:induction false} PrecedesTransitive(x: DiscoveredPeer, y: DiscoveredPeer, z: DiscoveredPeer)
    requires !Circle(x, y, z) && !Circle(y, z, x) && !Circle(z, x, y)
    requires SourceAddressPrecedes(x, y) && SourceAddressPrecedes(y, z)
    ensures SourceAddressPrecedes(x, z)
  {
    hide Ipv4Octets, TextLess;
    TextLessTotal(x.sourceAddress, y.sourceAddress);
    TextLessTotal(y.sourceAddress, z.sourceAddress);
    TextLessTotal(x.sourceAddress, z.sourceAddress);
    if TextLess(x.sourceAddress, y.sourceAddress) && TextLess(y.sourceAddress, z.sourceAddress) {
      TextLessTransitive(x.sourceAddress, y.sourceAddress, z.sourceAddress);
    }
  }

  /** A circle is one: each of the three precedes the next. */
  lemma {:induction false} CircleRuns(x: DiscoveredPeer, y: DiscoveredPeer, z: DiscoveredPeer)
    requires Circle(x, y, z)
    ensures SourceAddressPrecedes(x, y) && SourceAddressPrecedes(y, z) && SourceAddressPrecedes(z, x)
  {
    hide Ipv4Octets;
    TextLessTotal(y.sourceAddress, z.sourceAddress);
    TextLessTotal(z.sourceAddress, x.sourceAddress);
  }

  /** Exactly when the comparator is what a sort demands, on any list of peers: there are no three of
      equal rate such that two addresses stand in the opposite order as texts, with a text that is no
      address between them. */
  lemma {:induction false} StrictWeakOrderIff(peers: seq<DiscoveredPeer>)
    ensures StrictWeakOrder(Faster, peers) <==> NoCircle(peers)
  {
    hide SourceAddressPrecedes, Circle;
    if NoCircle(peers) {
      NoCircleSuffices(peers);
    } else {
      var x, y, z :| x in peers && y in peers && z in peers
                     && x.bytesPerSecond == y.bytesPerSecond == z.bytesPerSecond && Circle(x, y, z);
      CircleRuns(x, y, z);
      PrecedesTotal(x, z);
      assert Faster(x, y) && Faster(y, z) && !Faster(x, z);
    }
  }

  lemma {:induction false} NoCircleSuffices(peers: seq<DiscoveredPeer>)
    requires NoCircle(peers)
    ensures StrictWeakOrder(Faster, peers)
  {
    hide SourceAddressPrecedes, Circle;
    forall x | x in peers
      ensures !Faster(x, x)
    {
      PrecedesTotal(x, x);
    }
    forall x, y, z | x in peers && y in peers && z in peers && Faster(x, y) && Faster(y, z)
      ensures Faster(x, z)
    {
      if x.bytesPerSecond == y.bytesPerSecond == z.bytesPerSecond {
        PrecedesTransitive(x, y, z);
      }
    }
    forall x, y, z | x in peers && y in peers && z in peers
                     && !Faster(x, y) && !Faster(y, x) && !Faster(y, z) && !Faster(z, y)
      ensures !Faster(x, z)
    {
      Incomparable(x, y);
      Incomparable(y, z);
      SamePlace(x, z);
    }
  }

  /** On peers with valid addresses there is no circle, so the comparator is an order. */
  lemma {:induction false} FasterIsStrictWeakOrder(peers: seq<DiscoveredPeer>)
    requires forall p | p in peers :: HasAddress(p)
    ensures StrictWeakOrder(Faster, peers)
  {
    hide Faster, HasAddress;
    StrictWeakOrderIff(peers);
  }

  lemma {:induction false} Incomparable(x: DiscoveredPeer, y: DiscoveredPeer)
    requires !Faster(x, y) && !Faster(y, x)
    ensures x.bytesPerSecond == y.bytesPerSecond
    ensures (x.sourceAddress, x.endpoint.transferPort, x.endpoint.probePort)
            == (y.sourceAddress, y.endpoint.transferPort, y.endpoint.probePort)
  {
    PrecedesTotal(x, y);
  }

  lemma {:induction false} SamePlace(x: DiscoveredPeer, y: DiscoveredPeer)
    requires x.bytesPerSecond == y.bytesPerSecond
    requires (x.sourceAddress, x.endpoint.transferPort, x.endpoint.probePort)
             == (y.sourceAddress, y.endpoint.transferPort, y.endpoint.probePort)
    ensures !Faster(x, y)
  {
    PrecedesTotal(x, y);
    hide Ipv4Octets, TextLess;
    PrecedesTotal(x, x);
  }

  function PeerAt(source: string): DiscoveredPeer {
    DiscoveredPeer(PeerEndpoint(source, 1, 1, 1), "peer", source, 0.0)
  }

  /** Valid addresses are needed: on arbitrary texts the mixed rule runs in a circle, here through
      9.0.0.0, 10.0.0.0 and the text "1x". */
  lemma {:induction false} PrecedesCircleOnArbitraryTexts()
    ensures var x, y, z := PeerAt(PrintIpv4(Octets(9, 0, 0, 0))), PeerAt(PrintIpv4(Octets(10, 0, 0, 0))), PeerAt("1x");
            SourceAddressPrecedes(x, y) && SourceAddressPrecedes(y, z) && SourceAddressPrecedes(z, x)
  {
    var x, y, z := PrintIpv4(Octets(9, 0, 0, 0)), PrintIpv4(Octets(10, 0, 0, 0)), "1x";
    Ipv4RoundTrip(Octets(9, 0, 0, 0));
    Ipv4RoundTrip(Octets(10, 0, 0, 0));
    CircleTexts();
    hide Ipv4Octets, PrintIpv4, TextLess;
  }

  lemma {:induction false} CircleTexts()
    ensures Ipv4Octets("1x") == None
    ensures TextLess(PrintIpv4(Octets(10, 0, 0, 0)), "1x")
    ensures TextLess("1x", PrintIpv4(Octets(9, 0, 0, 0)))
  {
    SplitFirst("1x", [], '.');
    assert Print(10) == Print(1) + [Digit(0)];
    var x, y := PrintIpv4(Octets(9, 0, 0, 0)), PrintIpv4(Octets(10, 0, 0, 0));
    assert x[0] == Print(9)[0] == '9';
    assert y[0] == Print(10)[0] == '1' && y[1] == Print(10)[1] == '0';
    hide Ipv4Octets, PrintIpv4, Print;
    assert TextLess(y[1..], "1x"[1..]);
  }

  // ----- De-duplication -----

  /** The valid replies, in the order of arrival. A reply is a message and its source address. */
  function ValidPeers(replies: seq<(string, string)>): seq<DiscoveredPeer> {
    if replies == [] then []
    else
      var n := |replies| - 1;
      var peer := ParseAdvertisement(replies[n].0, replies[n].1);
      ValidPeers(replies[..n]) + if peer.Some? then [peer.value] else []
  }

  function Keys(peers: seq<DiscoveredPeer>): set<(string, nat, nat)> {
    set p | p in peers :: Key(p)
  }

  /** The first peer of each key, in the order of arrival. */
  function FirstOfEachKey(peers: seq<DiscoveredPeer>): seq<DiscoveredPeer> {
    if peers == [] then []
    else
      var n := |peers| - 1;
      FirstOfEachKey(peers[..n]) + if Key(peers[n]) in Keys(peers[..n]) then [] else [peers[n]]
  }

  function Candidates(replies: seq<(string, string)>): seq<DiscoveredPeer> {
    FirstOfEachKey(ValidPeers(replies))
  }

  lemma {:induction false} OneMorePeer(peers: seq<DiscoveredPeer>, p: DiscoveredPeer)
    ensures Keys(peers + [p]) == Keys(peers) + {Key(p)}
    ensures FirstOfEachKey(peers + [p]) == FirstOfEachKey(peers) + if Key(p) in Keys(peers) then [] else [p]
    ensures FirstOfEachKey(peers) + [] == FirstOfEachKey(peers)
  {
    assert (peers + [p])[..|peers|] == peers;
    hide FirstOfEachKey, Key;
    var all := peers + [p];
    assert all[|peers|] == p && forall i | 0 <= i < |peers| :: all[i] == peers[i];
    assert forall q | q in all :: q in peers || q == p;
    assert forall q | q in peers :: q in all;
    assert p in all;
  }

  /** One more reply adds a candidate if it is valid and its key is new. */
  lemma {:induction false} OneMoreReply(replies: seq<(string, string)>, k: nat)
    requires k < |replies|
    ensures var peer := ParseAdvertisement(replies[k].0, replies[k].1);
            var keys := Keys(ValidPeers(replies[..k]));
            && Candidates(replies[..k + 1]) ==
               Candidates(replies[..k]) + (if peer.Some? && Key(peer.value) !in keys then [peer.value] else [])
            && Keys(ValidPeers(replies[..k + 1])) == keys + (if peer.Some? then {Key(peer.value)} else {})
  {
    hide ParseAdvertisement, FirstOfEachKey, Keys;
    assert replies[..k + 1][..k] == replies[..k];
    var peer := ParseAdvertisement(replies[k].0, replies[k].1);
    var before := ValidPeers(replies[..k]);
    assert before + [] == before;
    assert FirstOfEachKey(before) + [] == FirstOfEachKey(before);
    if peer.Some? {
      OneMorePeer(before, peer.value);
    }
  }

  method DeduplicateCandidates(replies: seq<(string, string)>) returns (candidates: seq<DiscoveredPeer>)
    ensures candidates == Candidates(replies)
  {
    candidates := [];
    var keys: set<(string, nat, nat)> := {};
    for k := 0 to |replies|
      invariant candidates == Candidates(replies[..k])
      invariant keys == Keys(ValidPeers(replies[..k]))
    {
      hide ParseAdvertisement, Candidates, ValidPeers, Keys;
      OneMoreReply(replies, k);
      var peer := ParseAdvertisement(replies[k].0, replies[k].1);
      if peer.Some? && Key(peer.value) !in keys {
        keys := keys + {Key(peer.value)};
        candidates := candidates + [peer.value];
      }
    }
    assert replies[..|replies|] == replies;
  }

  /** De-duplication keeps exactly one of the peers of each key. */
  lemma {:induction false} FirstOfEachKeyFacts(peers: seq<DiscoveredPeer>)
    ensures Keys(FirstOfEachKey(peers)) == Keys(peers)
    ensures forall i, j | 0 <= i < j < |FirstOfEachKey(peers)| ::
              Key(FirstOfEachKey(peers)[i]) != Key(FirstOfEachKey(peers)[j])
    ensures forall p | p in FirstOfEachKey(peers) :: p in peers
  {
    hide Keys, Key;
    if peers != [] {
      var n := |peers| - 1;
      var first, last := FirstOfEachKey(peers[..n]), peers[n];
      FirstOfEachKeyFacts(peers[..n]);
      assert peers == peers[..n] + [last];
      OneMorePeer(peers[..n], last);
      if Key(last) !in Keys(first) {
        OneMorePeer(first, last);
        NewKeyIsDistinct(first, last);
      }
    }
  }

  lemma {:induction false} NewKeyIsDistinct(first: seq<DiscoveredPeer>, last: DiscoveredPeer)
    requires Key(last) !in Keys(first)
    ensures forall i | 0 <= i < |first| :: Key(first[i]) != Key(last)
  {
  }

  /** What the parser guarantees of every candidate. */
  ghost predicate WellFormedPeer(p: DiscoveredPeer) {
    HasAddress(p) && p.endpoint.host == p.sourceAddress && p.bytesPerSecond == 0.0
  }

  lemma {:induction false} ValidPeersWellFormed(replies: seq<(string, string)>)
    ensures forall p | p in ValidPeers(replies) :: WellFormedPeer(p)
    ensures forall p | p in ValidPeers(replies) :: exists r :: r in replies && ParseAdvertisement(r.0, r.1) == Some(p)
    ensures forall r | r in replies && ParseAdvertisement(r.0, r.1).Some? ::
              ParseAdvertisement(r.0, r.1).value in ValidPeers(replies)
  {
    hide ParseAdvertisement;
    if replies != [] {
      var n := |replies| - 1;
      ValidPeersWellFormed(replies[..n]);
      if ParseAdvertisement(replies[n].0, replies[n].1).Some? {
        ParsedIsWellFormed(replies[n].0, replies[n].1);
      }
      assert replies == replies[..n] + [replies[n]];
      forall p | p in ValidPeers(replies)
        ensures exists r :: r in replies && ParseAdvertisement(r.0, r.1) == Some(p)
      {
        if p in ValidPeers(replies[..n]) {
          var r :| r in replies[..n] && ParseAdvertisement(r.0, r.1) == Some(p);
        } else {
          assert replies[n] in replies;
        }
      }
    }
  }

  lemma {:induction false} ParsedIsWellFormed(message: string, source: string)
    requires ParseAdvertisement(message, source).Some?
    ensures WellFormedPeer(ParseAdvertisement(message, source).value)
  {
    hide Ipv4Octets;
  }

  /** The same host, transfer port and probe port. */
  predicate SameService(p: DiscoveredPeer, q: DiscoveredPeer) {
    && p.endpoint.host == q.endpoint.host
    && p.endpoint.transferPort == q.endpoint.transferPort
    && p.endpoint.probePort == q.endpoint.probePort
  }

  /** Reply `k` is valid, and no valid reply before it is for the same service. */
  ghost predicate FirstForService(replies: seq<(string, string)>, k: nat)
    requires k < |replies|
  {
    var peer := ParseAdvertisement(replies[k].0, replies[k].1);
    peer.Some? && forall j | 0 <= j < k ::
      var other := ParseAdvertisement(replies[j].0, replies[j].1);
      other.Some? ==> !SameService(other.value, peer.value)
  }

  /** `from` are the positions of the replies that are first for their service, in order, and
      `candidates` what they say. */
  ghost predicate FirstReplies(replies: seq<(string, string)>, candidates: seq<DiscoveredPeer>, from: seq<nat>) {
    && |from| == |candidates|
    && (forall i, j | 0 <= i < j < |from| :: from[i] < from[j])
    && (forall i | 0 <= i < |from| ::
          from[i] < |replies|
          && ParseAdvertisement(replies[from[i]].0, replies[from[i]].1) == Some(candidates[i]))
    && (forall k | 0 <= k < |replies| :: k in from <==> FirstForService(replies, k))
  }

  lemma {:induction false} FirstForServiceIff(replies: seq<(string, string)>, k: nat)
    requires k < |replies|
    ensures var peer := ParseAdvertisement(replies[k].0, replies[k].1);
            FirstForService(replies, k) <==> peer.Some? && Key(peer.value) !in Keys(ValidPeers(replies[..k]))
  {
    hide ParseAdvertisement, ValidPeers;
    var peer := ParseAdvertisement(replies[k].0, replies[k].1);
    ValidPeersWellFormed(replies[..k]);
    if peer.Some? && Key(peer.value) in Keys(ValidPeers(replies[..k])) {
      var p :| p in ValidPeers(replies[..k]) && Key(p) == Key(peer.value);
      var r :| r in replies[..k] && ParseAdvertisement(r.0, r.1) == Some(p);
      var j :| 0 <= j < k && replies[..k][j] == r;
      assert SameService(ParseAdvertisement(replies[j].0, replies[j].1).value, peer.value);
    }
    forall j | 0 <= j < k && peer.Some? && ParseAdvertisement(replies[j].0, replies[j].1).Some?
               && SameService(ParseAdvertisement(replies[j].0, replies[j].1).value, peer.value)
      ensures Key(peer.value) in Keys(ValidPeers(replies[..k]))
    {
      assert replies[..k][j] == replies[j] && replies[j] in replies[..k];
    }
  }

  /** One more reply does not change which of the earlier ones are first. */
  lemma {:induction false} FirstOfPrefix(replies: seq<(string, string)>, n: nat, k: nat)
    requires k < n <= |replies|
    ensures FirstForService(replies[..n], k) <==> FirstForService(replies, k)
  {
    hide ParseAdvertisement, SameService;
    assert forall j | 0 <= j <= k :: replies[..n][j] == replies[j];
  }

  /** De-duplication keeps exactly the first valid reply for each service, in the order of arrival. */
  lemma {:induction false} FirstRepliesKept(replies: seq<(string, string)>) returns (from: seq<nat>)
    ensures FirstReplies(replies, Candidates(replies), from)
  {
    hide ParseAdvertisement, FirstForService, Candidates, FirstReplies, Keys;
    if replies == [] {
      NoReplies();
      return [];
    }
    var n := |replies| - 1;
    var before := FirstRepliesKept(replies[..n]);
    OneMoreReply(replies, n);
    assert replies[..n + 1] == replies;
    FirstForServiceIff(replies, n);
    from := before + if FirstForService(replies, n) then [n] else [];
    LastReply(replies, Candidates(replies[..n]), Candidates(replies), before, from);
  }

  lemma {:induction false} NoReplies()
    ensures FirstReplies([], Candidates([]), [])
  {
  }

  lemma {:induction false} LastReply(replies: seq<(string, string)>, candidates: seq<DiscoveredPeer>,
                                     candidates': seq<DiscoveredPeer>, from: seq<nat>, from': seq<nat>)
    requires replies != []
    requires FirstReplies(replies[..|replies| - 1], candidates, from)
    requires var n := |replies| - 1;
             var peer, first := ParseAdvertisement(replies[n].0, replies[n].1), FirstForService(replies, n);
             && from' == from + (if first then [n] else [])
             && (first ==> peer.Some?)
             && candidates' == candidates + if first then [peer.value] else []
    ensures FirstReplies(replies, candidates', from')
  {
    hide ParseAdvertisement, FirstForService;
    var n := |replies| - 1;
    forall k | 0 <= k < n
      ensures FirstForService(replies[..n], k) <==> FirstForService(replies, k)
    {
      FirstOfPrefix(replies, n, k);
    }
    forall k | 0 <= k < |replies|
      ensures k in from' <==> FirstForService(replies, k)
    {
      if k < n {
        assert k in from' <==> k in from;
      }
    }
  }

  // ----- Probing and ranking -----

  /** The outcome of a TCP probe, an oracle here. */
  datatype Probe = Rate(bytesPerSecond: real) | Failed(reason: string)

  /** The candidates whose probe succeeded, with their rates, in order. */
  function Successful(candidates: seq<DiscoveredPeer>, probe: DiscoveredPeer -> Probe): seq<DiscoveredPeer> {
    if candidates == [] then []
    else
      var n := |candidates| - 1;
      var outcome := probe(candidates[n]);
      Successful(candidates[..n], probe) +
      if outcome.Rate? then [candidates[n].(bytesPerSecond := outcome.bytesPerSecond)] else []
  }

  /** The report on the candidates whose probe failed, each with its reason. */
  function FailureReport(candidates: seq<DiscoveredPeer>, probe: DiscoveredPeer -> Probe): string {
    if candidates == [] then "all Hyperlink peer probes failed"
    else
      var n := |candidates| - 1;
      var outcome := probe(candidates[n]);
      FailureReport(candidates[..n], probe) +
      if outcome.Failed? then "; " + candidates[n].endpoint.host + ": " + outcome.reason else ""
  }

  /** The parts of the report when all have failed. */
  function FailureParts(candidates: seq<DiscoveredPeer>, probe: DiscoveredPeer -> Probe): (parts: seq<string>)
    requires forall c | c in candidates :: probe(c).Failed?
    ensures |parts| == |candidates|
    ensures forall i | 0 <= i < |parts| ::
              parts[i] == "; " + candidates[i].endpoint.host + ": " + probe(candidates[i]).reason
  {
    seq(|candidates|, i requires 0 <= i < |candidates| =>
      "; " + candidates[i].endpoint.host + ": " + probe(candidates[i]).reason)
  }

  /** All have failed, and the message is the fixed text and one part for each candidate, in order. */
  ghost predicate ReportsAll(message: string, candidates: seq<DiscoveredPeer>, probe: DiscoveredPeer -> Probe) {
    && (forall c | c in candidates :: probe(c).Failed?)
    && message == "all Hyperlink peer probes failed" + Flatten(FailureParts(candidates, probe))
  }

  lemma {:induction false} ReportOfAll(candidates: seq<DiscoveredPeer>, probe: DiscoveredPeer -> Probe)
    requires forall c | c in candidates :: probe(c).Failed?
    ensures ReportsAll(FailureReport(candidates, probe), candidates, probe)
  {
    hide FailureParts, Flatten;
    if candidates == [] {
      NoFailures(probe);
    } else {
      var n := |candidates| - 1;
      assert candidates == candidates[..n] + [candidates[n]] && candidates[n] in candidates;
      ReportOfAll(candidates[..n], probe);
      var parts := FailureParts(candidates, probe);
      assert parts[..n] == FailureParts(candidates[..n], probe) && parts[..n + 1] == parts;
      FlattenAt(parts, n);
    }
  }

  lemma {:induction false} NoFailures(probe: DiscoveredPeer -> Probe)
    ensures Flatten(FailureParts([], probe)) == ""
  {
  }

  datatype RankResult = Winner(peer: DiscoveredPeer) | NoPeerDiscovered | AllProbesFailed(message: string)

  /** `w` is a successful peer that no successful peer beats. */
  ghost predicate Best(w: DiscoveredPeer, successful: seq<DiscoveredPeer>) {
    w in successful && forall p | p in successful :: !Faster(p, w)
  }

  // ----- What the winner is, by rate, number, text and ports -----

  /** The address as one number. */
  function AddressNumber(o: Octets): nat {
    ((o.a * 256 + o.b) * 256 + o.c) * 256 + o.d
  }

  /** `s` comes before `t` in a dictionary: at the first difference it ends or has the smaller character. */
  ghost predicate TextBefore(s: string, t: string) {
    exists k :: 0 <= k <= |s| && k < |t| && s[..k] == t[..k] && (k == |s| || s[k] < t[k])
  }

  /** By address number, then by text, then by ports, `w` does not come after `p`. */
  ghost predicate NotAfter(w: DiscoveredPeer, p: DiscoveredPeer)
    requires HasAddress(w) && HasAddress(p)
  {
    var m, n := AddressNumber(Ipv4Octets(w.sourceAddress).value), AddressNumber(Ipv4Octets(p.sourceAddress).value);
    m < n
    || (m == n && TextBefore(w.sourceAddress, p.sourceAddress))
    || (w.sourceAddress == p.sourceAddress
        && (w.endpoint.transferPort < p.endpoint.transferPort
            || (w.endpoint.transferPort == p.endpoint.transferPort && w.endpoint.probePort <= p.endpoint.probePort)))
  }

  /** `w` is one of the peers, none is faster, and of those as fast it comes first. */
  ghost predicate FastestAndFirst(w: DiscoveredPeer, peers: seq<DiscoveredPeer>) {
    && w in peers
    && forall p | p in peers ::
         && p.bytesPerSecond <= w.bytesPerSecond
         && (p.bytesPerSecond == w.bytesPerSecond && HasAddress(w) && HasAddress(p) ==> NotAfter(w, p))
  }

  lemma {:induction false} TextLessIff(s: string, t: string)
    ensures TextLess(s, t) <==> TextBefore(s, t)
  {
    if s == [] {
      if t != [] {
        assert s[..0] == t[..0];
      }
    } else if t != [] && s[0] == t[0] {
      TextLessIff(s[1..], t[1..]);
      SameStart(s, t);
    } else if t != [] {
      assert s[..0] == t[..0];
      forall k | 0 < k <= |s| && k < |t|
        ensures s[..k] != t[..k]
      {
        assert s[..k][0] != t[..k][0];
      }
    }
  }

  lemma {:induction false} SameStart(s: string, t: string)
    requires s != [] && t != [] && s[0] == t[0]
    ensures TextBefore(s, t) <==> TextBefore(s[1..], t[1..])
  {
    var s', t' := s[1..], t[1..];
    if TextBefore(s, t) {
      var k :| 0 <= k <= |s| && k < |t| && s[..k] == t[..k] && (k == |s| || s[k] < t[k]);
      assert k > 0 && s'[..k - 1] == s[..k][1..] == t[..k][1..] == t'[..k - 1];
    }
    if TextBefore(s', t') {
      var k :| 0 <= k <= |s'| && k < |t'| && s'[..k] == t'[..k] && (k == |s'| || s'[k] < t'[k]);
      assert s[..k + 1] == [s[0]] + s'[..k] && t[..k + 1] == [t[0]] + t'[..k];
    }
  }

  lemma {:induction false} OctetsOfAddress(address: string)
    requires Ipv4Octets(address).Some?
    ensures var o := Ipv4Octets(address).value; o.a <= 255 && o.b <= 255 && o.c <= 255 && o.d <= 255
  {
  }

  lemma {:induction false} OctetsLessIff(x: Octets, y: Octets)
    requires x.a <= 255 && x.b <= 255 && x.c <= 255 && x.d <= 255
    requires y.a <= 255 && y.b <= 255 && y.c <= 255 && y.d <= 255
    ensures OctetsLess(x, y) <==> AddressNumber(x) < AddressNumber(y)
    ensures x == y <==> AddressNumber(x) == AddressNumber(y)
  {
  }

  lemma {:induction false} UnbeatenIsFirst(w: DiscoveredPeer, p: DiscoveredPeer)
    requires !Faster(p, w)
    ensures p.bytesPerSecond <= w.bytesPerSecond
    ensures p.bytesPerSecond == w.bytesPerSecond && HasAddress(w) && HasAddress(p) ==> NotAfter(w, p)
  {
    if p.bytesPerSecond == w.bytesPerSecond && HasAddress(w) && HasAddress(p) {
      OctetsOfAddress(w.sourceAddress);
      OctetsOfAddress(p.sourceAddress);
      OctetsLessIff(Ipv4Octets(p.sourceAddress).value, Ipv4Octets(w.sourceAddress).value);
      TextLessTotal(p.sourceAddress, w.sourceAddress);
      TextLessIff(w.sourceAddress, p.sourceAddress);
      hide Ipv4Octets, TextLess, TextBefore, AddressNumber;
    }
  }

  lemma {:induction false} BestIsFastestAndFirst(w: DiscoveredPeer, peers: seq<DiscoveredPeer>)
    requires Best(w, peers)
    ensures FastestAndFirst(w, peers)
  {
    hide Faster, NotAfter, HasAddress;
    forall p | p in peers
      ensures p.bytesPerSecond <= w.bytesPerSecond
      ensures p.bytesPerSecond == w.bytesPerSecond && HasAddress(w) && HasAddress(p) ==> NotAfter(w, p)
    {
      UnbeatenIsFirst(w, p);
    }
  }

  /** The winner among the candidates, in terms of their probes alone. */
  ghost predicate WinsProbes(w: DiscoveredPeer, candidates: seq<DiscoveredPeer>, probe: DiscoveredPeer -> Probe) {
    && (exists c :: c in candidates && probe(c) == Rate(w.bytesPerSecond)
                    && w == c.(bytesPerSecond := w.bytesPerSecond))
    && HasAddress(w)
    && forall c | c in candidates && probe(c).Rate? ::
         && HasAddress(c)
         && probe(c).bytesPerSecond <= w.bytesPerSecond
         && (probe(c).bytesPerSecond == w.bytesPerSecond ==> NotAfter(w, c))
  }

  lemma {:induction false} BestWinsProbes(w: DiscoveredPeer, replies: seq<(string, string)>,
                                          probe: DiscoveredPeer -> Probe)
    requires Best(w, Successful(Candidates(replies), probe))
    ensures WinsProbes(w, Candidates(replies), probe)
  {
    hide Candidates, Successful, Faster, Best, Ipv4Octets, TextBefore;
    var candidates := Candidates(replies);
    var successful := Successful(candidates, probe);
    BestIsFastestAndFirst(w, successful);
    SuccessfulHaveAddresses(replies, probe);
    SuccessfulFrom(candidates, probe);
    forall c | c in candidates && probe(c).Rate?
      ensures HasAddress(c) && probe(c).bytesPerSecond <= w.bytesPerSecond
      ensures probe(c).bytesPerSecond == w.bytesPerSecond ==> NotAfter(w, c)
    {
      var s := c.(bytesPerSecond := probe(c).bytesPerSecond);
      assert s in successful;
    }
  }

  /** What the ranking promises for the replies and probe outcomes it met. */
  ghost predicate RankSpec(replies: seq<(string, string)>, probe: DiscoveredPeer -> Probe, result: RankResult) {
    var candidates := Candidates(replies);
    var successful := Successful(candidates, probe);
    match result
    case NoPeerDiscovered => candidates == []
    case AllProbesFailed(message) => candidates != [] && successful == [] && message == FailureReport(candidates, probe)
    case Winner(w) => Best(w, successful)
  }

  /** Sorts the peers and takes the first. The sort demands that the comparator be an order on them,
      which valid source addresses ensure. An empty list is refused. */
  method SelectFastestPeer(candidates: seq<DiscoveredPeer>) returns (fastest: Option<DiscoveredPeer>)
    requires StrictWeakOrder(Faster, candidates)
    ensures fastest == None <==> candidates == []
    ensures fastest.Some? ==> Best(fastest.value, candidates) && FastestAndFirst(fastest.value, candidates)
  {
    if candidates == [] {
      return None;
    }
    hide Faster;
    var sorted := Sort(candidates, Faster);
    assert |sorted| == |multiset(sorted)| == |candidates|;
    assert sorted[0] in multiset(candidates);
    forall p | p in candidates
      ensures !Faster(p, sorted[0])
    {
      assert p in multiset(sorted);
      var i :| 0 <= i < |sorted| && sorted[i] == p;
      assert StrictWeakOrder(Faster, candidates);
    }
    BestIsFastestAndFirst(sorted[0], candidates);
    return Some(sorted[0]);
  }

  /** The connection to the peers: each probe made is logged. What a probe of a peer finds is fixed
      but unknown. */
  class Prober {
    const outcome: DiscoveredPeer -> Probe
    ghost var log: seq<DiscoveredPeer>

    constructor (outcome: DiscoveredPeer -> Probe)
      ensures this.outcome == outcome && log == []
    {
      this.outcome := outcome;
      log := [];
    }

    method ProbePeer(peer: DiscoveredPeer) returns (found: Probe)
      modifies this`log
      ensures found == outcome(peer) && log == old(log) + [peer]
    {
      found := outcome(peer);
      log := log + [peer];
    }
  }

  /** Probes every candidate once, in the order of arrival, and ranks those that answered. One
      failing probe does not keep another from being made. */
  method RankCandidates(replies: seq<(string, string)>, prober: Prober) returns (result: RankResult)
    modifies prober`log
    ensures RankSpec(replies, prober.outcome, result)
    ensures result.Winner? ==> WinsProbes(result.peer, Candidates(replies), prober.outcome)
    ensures result.AllProbesFailed? ==> ReportsAll(result.message, Candidates(replies), prober.outcome)
    ensures prober.log == old(prober.log) + Candidates(replies)
  {
    hide WinsProbes, ReportsAll, Candidates, Faster, HasAddress, Best;
    var candidates := DeduplicateCandidates(replies);
    if candidates == [] {
      return NoPeerDiscovered;
    }
    var report, successful := "all Hyperlink peer probes failed", [];
    for k := 0 to |candidates|
      invariant prober.log == old(prober.log) + candidates[..k]
      invariant successful == Successful(candidates[..k], prober.outcome)
      invariant report == FailureReport(candidates[..k], prober.outcome)
    {
      assert candidates[..k + 1][..k] == candidates[..k];
      var found := prober.ProbePeer(candidates[k]);
      match found {
        case Rate(rate) =>
          successful := successful + [candidates[k].(bytesPerSecond := rate)];
        case Failed(reason) =>
          report := report + ("; " + candidates[k].endpoint.host + ": " + reason);
      }
    }
    assert candidates[..|candidates|] == candidates;
    if successful == [] {
      SuccessfulFrom(candidates, prober.outcome);
      ReportOfAll(candidates, prober.outcome);
      return AllProbesFailed(report);
    }
    SuccessfulHaveAddresses(replies, prober.outcome);
    FasterIsStrictWeakOrder(successful);
    var fastest := SelectFastestPeer(successful);
    BestWinsProbes(fastest.value, replies, prober.outcome);
    return Winner(fastest.value);
  }

  lemma {:induction false} SuccessfulFrom(candidates: seq<DiscoveredPeer>, probe: DiscoveredPeer -> Probe)
    ensures forall s | s in Successful(candidates, probe) ::
              exists c :: c in candidates && probe(c).Rate? && s == c.(bytesPerSecond := probe(c).bytesPerSecond)
    ensures forall c | c in candidates && probe(c).Rate? ::
              c.(bytesPerSecond := probe(c).bytesPerSecond) in Successful(candidates, probe)
  {
    if candidates != [] {
      var n := |candidates| - 1;
      SuccessfulFrom(candidates[..n], probe);
      assert candidates == candidates[..n] + [candidates[n]];
      forall s | s in Successful(candidates, probe)
        ensures exists c :: c in candidates && probe(c).Rate? && s == c.(bytesPerSecond := probe(c).bytesPerSecond)
      {
        if s in Successful(candidates[..n], probe) {
          var c :| c in candidates[..n] && probe(c).Rate? && s == c.(bytesPerSecond := probe(c).bytesPerSecond);
        } else {
          assert candidates[n] in candidates;
        }
      }
    }
  }

  lemma {:induction false} SuccessfulHaveAddresses(replies: seq<(string, string)>, probe: DiscoveredPeer -> Probe)
    ensures forall s | s in Successful(Candidates(replies), probe) ::
              HasAddress(s) && s.endpoint.host == s.sourceAddress
  {
    var candidates := Candidates(replies);
    SuccessfulFrom(candidates, probe);
    FirstOfEachKeyFacts(ValidPeers(replies));
    ValidPeersWellFormed(replies);
    forall s | s in Successful(candidates, probe)
      ensures HasAddress(s) && s.endpoint.host == s.sourceAddress
    {
      var c :| c in candidates && probe(c).Rate? && s == c.(bytesPerSecond := probe(c).bytesPerSecond);
      assert WellFormedPeer(c);
    }
  }

  // ----- Independence of the order of arrival -----

  /** The probe measures an endpoint: replies with the same key get the same outcome. */
  ghost predicate ProbesEndpoints(probe: DiscoveredPeer -> Probe) {
    forall p, q | Key(p) == Key(q) :: probe(p) == probe(q)
  }

  /** The keys of the valid replies do not depend on their order. */
  lemma {:induction false} SameKeys(replies: seq<(string, string)>, replies': seq<(string, string)>)
    requires multiset(replies) == multiset(replies')
    ensures Keys(Candidates(replies)) <= Keys(Candidates(replies'))
  {
    hide ParseAdvertisement;
    FirstOfEachKeyFacts(ValidPeers(replies));
    FirstOfEachKeyFacts(ValidPeers(replies'));
    ValidPeersWellFormed(replies);
    ValidPeersWellFormed(replies');
    forall k | k in Keys(ValidPeers(replies))
      ensures k in Keys(ValidPeers(replies'))
    {
      var p :| p in ValidPeers(replies) && Key(p) == k;
      var r :| r in replies && ParseAdvertisement(r.0, r.1) == Some(p);
      assert r in multiset(replies');
    }
  }

  /** A successful peer has a counterpart of the same key and rate among the successful peers of
      the same replies in another order. */
  lemma {:induction false} Counterpart(replies: seq<(string, string)>, replies': seq<(string, string)>,
                                       probe: DiscoveredPeer -> Probe, s: DiscoveredPeer) returns (s': DiscoveredPeer)
    requires multiset(replies) == multiset(replies') && ProbesEndpoints(probe)
    requires s in Successful(Candidates(replies), probe)
    ensures s' in Successful(Candidates(replies'), probe)
    ensures Key(s') == Key(s) && s'.bytesPerSecond == s.bytesPerSecond
  {
    SuccessfulFrom(Candidates(replies), probe);
    SuccessfulFrom(Candidates(replies'), probe);
    SameKeys(replies, replies');
    var c :| c in Candidates(replies) && probe(c).Rate? && s == c.(bytesPerSecond := probe(c).bytesPerSecond);
    assert Key(c) in Keys(Candidates(replies'));
    var c' :| c' in Candidates(replies') && Key(c') == Key(c);
    assert probe(c') == probe(c);
    s' := c'.(bytesPerSecond := probe(c').bytesPerSecond);
  }

  /** The order looks only at rate, address and ports. */
  lemma {:induction false} FasterByKey(x: DiscoveredPeer, x': DiscoveredPeer, y: DiscoveredPeer)
    requires x.sourceAddress == x.endpoint.host && x'.sourceAddress == x'.endpoint.host
    requires Key(x) == Key(x') && x.bytesPerSecond == x'.bytesPerSecond
    ensures Faster(x, y) == Faster(x', y) && Faster(y, x) == Faster(y, x')
  {
    hide Ipv4Octets;
  }

  lemma {:induction false} DistinctKeysDecide(x: DiscoveredPeer, y: DiscoveredPeer)
    requires HasAddress(x) && HasAddress(y)
    requires x.sourceAddress == x.endpoint.host && y.sourceAddress == y.endpoint.host && Key(x) != Key(y)
    ensures Faster(x, y) || Faster(y, x)
    ensures !(Faster(x, y) && Faster(y, x))
  {
    hide SourceAddressPrecedes;
    PrecedesTotal(x, y);
  }

  lemma {:induction false} SameBest(replies: seq<(string, string)>, replies': seq<(string, string)>,
                                    probe: DiscoveredPeer -> Probe, w: DiscoveredPeer, w': DiscoveredPeer)
    requires multiset(replies) == multiset(replies') && ProbesEndpoints(probe)
    requires Best(w, Successful(Candidates(replies), probe)) && Best(w', Successful(Candidates(replies'), probe))
    ensures Key(w) == Key(w') && w.bytesPerSecond == w'.bytesPerSecond
  {
    hide Faster, Candidates, Successful, HasAddress;
    var v := Counterpart(replies', replies, probe, w');
    var u := Counterpart(replies, replies', probe, w);
    SuccessfulHaveAddresses(replies, probe);
    SuccessfulHaveAddresses(replies', probe);
    if Key(w) != Key(w') {
      FasterByKey(v, w', w);
      FasterByKey(u, w, w');
      DistinctKeysDecide(w, w');
    } else {
      UniqueRate(replies, probe, w, v);
    }
  }

  lemma {:induction false} UniqueRate(replies: seq<(string, string)>, probe: DiscoveredPeer -> Probe,
                                      x: DiscoveredPeer, y: DiscoveredPeer)
    requires ProbesEndpoints(probe)
    requires x in Successful(Candidates(replies), probe) && y in Successful(Candidates(replies), probe)
    requires Key(x) == Key(y)
    ensures x == y
  {
    hide FirstOfEachKey, ValidPeers, Successful;
    SuccessfulFrom(Candidates(replies), probe);
    FirstOfEachKeyFacts(ValidPeers(replies));
    var c :| c in Candidates(replies) && probe(c).Rate? && x == c.(bytesPerSecond := probe(c).bytesPerSecond);
    var d :| d in Candidates(replies) && probe(d).Rate? && y == d.(bytesPerSecond := probe(d).bytesPerSecond);
    assert Key(c) == Key(d);
    var i :| 0 <= i < |Candidates(replies)| && Candidates(replies)[i] == c;
    var j :| 0 <= j < |Candidates(replies)| && Candidates(replies)[j] == d;
  }

  ghost predicate SameOutcome(r: RankResult, r': RankResult) {
    match r
    case Winner(w) => r'.Winner? && Key(r'.peer) == Key(w) && r'.peer.bytesPerSecond == w.bytesPerSecond
    case NoPeerDiscovered => r'.NoPeerDiscovered?
    case AllProbesFailed(_) => r'.AllProbesFailed?
  }

  /** The order in which the replies arrive does not matter: the ranking selects the same host,
      transfer port and probe port, or fails in the same way. */
  lemma {:induction false} OrderIndependence(replies: seq<(string, string)>, replies': seq<(string, string)>,
                                             probe: DiscoveredPeer -> Probe, r: RankResult, r': RankResult)
    requires multiset(replies) == multiset(replies') && ProbesEndpoints(probe)
    requires RankSpec(replies, probe, r) && RankSpec(replies', probe, r')
    ensures SameOutcome(r, r')
  {
    hide Candidates, Successful, Best;
    var s, s' := Successful(Candidates(replies), probe), Successful(Candidates(replies'), probe);
    SameKeys(replies, replies');
    SameKeys(replies', replies);
    KeysEmpty(Candidates(replies));
    KeysEmpty(Candidates(replies'));
    NoCandidateNoSuccess(probe);
    if s != [] {
      var u := Counterpart(replies, replies', probe, s[0]);
    }
    if s' != [] {
      var u := Counterpart(replies', replies, probe, s'[0]);
    }
    BestIsMember(r, s);
    BestIsMember(r', s');
    if r.Winner? && r'.Winner? {
      SameBest(replies, replies', probe, r.peer, r'.peer);
    }
  }

  lemma {:induction false} BestIsMember(r: RankResult, s: seq<DiscoveredPeer>)
    ensures r.Winner? && Best(r.peer, s) ==> s != []
  {
  }

  lemma {:induction false} NoCandidateNoSuccess(probe: DiscoveredPeer -> Probe)
    ensures Successful([], probe) == []
  {
  }

  lemma {:induction false} KeysEmpty(peers: seq<DiscoveredPeer>)
    ensures Keys(peers) == {} <==> peers == []
  {
    if peers != [] {
      assert Key(peers[0]) in Keys(peers);
    }
  }

  // ----- What does depend on the order -----

  lemma {:induction false} FirstOfEachKeyHead(peers: seq<DiscoveredPeer>)
    requires peers != []
    ensures FirstOfEachKey(peers) != [] && FirstOfEachKey(peers)[0] == peers[0]
  {
    var n := |peers| - 1;
    if n > 0 {
      FirstOfEachKeyHead(peers[..n]);
    } else {
      assert peers[..0] == [];
    }
  }

  lemma {:induction false} FirstReplyHead(replies: seq<(string, string)>)
    requires replies != [] && ParseAdvertisement(replies[0].0, replies[0].1).Some?
    ensures ValidPeers(replies) != [] && ValidPeers(replies)[0] == ParseAdvertisement(replies[0].0, replies[0].1).value
  {
    hide ParseAdvertisement;
    var n := |replies| - 1;
    if n > 0 {
      FirstReplyHead(replies[..n]);
    } else {
      assert replies[..0] == [];
    }
  }

  /** The best peer of one order has a best counterpart in any other. */
  lemma {:induction false} CounterpartIsBest(replies: seq<(string, string)>, replies': seq<(string, string)>,
                                             probe: DiscoveredPeer -> Probe, w: DiscoveredPeer)
    returns (w': DiscoveredPeer)
    requires multiset(replies) == multiset(replies') && ProbesEndpoints(probe)
    requires Best(w, Successful(Candidates(replies), probe))
    ensures Best(w', Successful(Candidates(replies'), probe))
    ensures Key(w') == Key(w) && w'.bytesPerSecond == w.bytesPerSecond
  {
    hide Faster, Candidates, Successful, HasAddress;
    w' := Counterpart(replies, replies', probe, w);
    SuccessfulHaveAddresses(replies, probe);
    SuccessfulHaveAddresses(replies', probe);
    forall q | q in Successful(Candidates(replies'), probe)
      ensures !Faster(q, w')
    {
      var p := Counterpart(replies', replies, probe, q);
      FasterByKey(p, q, w);
      FasterByKey(w, w', q);
    }
  }

  /** The peer of a reply that arrives first is itself a candidate. */
  lemma {:induction false} MoveToFront(replies: seq<(string, string)>, p: DiscoveredPeer)
    returns (replies': seq<(string, string)>)
    requires p in ValidPeers(replies)
    ensures multiset(replies') == multiset(replies) && p in Candidates(replies')
  {
    hide ParseAdvertisement;
    ValidPeersWellFormed(replies);
    var r :| r in replies && ParseAdvertisement(r.0, r.1) == Some(p);
    var i :| 0 <= i < |replies| && replies[i] == r;
    replies' := [r] + (replies[..i] + replies[i + 1..]);
    assert replies == replies[..i] + [r] + replies[i + 1..];
    FirstReplyHead(replies');
    FirstOfEachKeyHead(ValidPeers(replies'));
  }

  lemma {:induction false} WinnerComesFrom(replies: seq<(string, string)>, probe: DiscoveredPeer -> Probe,
                                           w: DiscoveredPeer) returns (c: DiscoveredPeer)
    requires w in Successful(Candidates(replies), probe)
    ensures c in Candidates(replies) && c in ValidPeers(replies)
    ensures probe(c).Rate? && w == c.(bytesPerSecond := probe(c).bytesPerSecond)
  {
    hide ParseAdvertisement;
    SuccessfulFrom(Candidates(replies), probe);
    FirstOfEachKeyFacts(ValidPeers(replies));
    c :| c in Candidates(replies) && probe(c).Rate? && w == c.(bytesPerSecond := probe(c).bytesPerSecond);
  }

  lemma {:induction false} SameValidPeers(replies: seq<(string, string)>, replies': seq<(string, string)>,
                                          p: DiscoveredPeer)
    requires multiset(replies) == multiset(replies') && p in ValidPeers(replies)
    ensures p in ValidPeers(replies')
  {
    hide ParseAdvertisement;
    ValidPeersWellFormed(replies);
    ValidPeersWellFormed(replies');
    var r :| r in replies && ParseAdvertisement(r.0, r.1) == Some(p);
    assert r in multiset(replies');
  }

  lemma {:induction false} CandidateOfKey(replies: seq<(string, string)>, x: DiscoveredPeer, y: DiscoveredPeer)
    requires x in Candidates(replies) && y in Candidates(replies) && Key(x) == Key(y)
    ensures x == y
  {
    hide FirstOfEachKey, ValidPeers;
    FirstOfEachKeyFacts(ValidPeers(replies));
    var i :| 0 <= i < |Candidates(replies)| && Candidates(replies)[i] == x;
    var j :| 0 <= j < |Candidates(replies)| && Candidates(replies)[j] == y;
  }

  /** All valid replies with the winner's key advertise the same peer. */
  ghost predicate Unanimous(replies: seq<(string, string)>, w: DiscoveredPeer) {
    forall p | p in ValidPeers(replies) && Key(p) == Key(w) :: p.(bytesPerSecond := w.bytesPerSecond) == w
  }

  ghost predicate AlwaysWins(replies: seq<(string, string)>, probe: DiscoveredPeer -> Probe, w: DiscoveredPeer) {
    forall replies', r | multiset(replies') == multiset(replies) && RankSpec(replies', probe, r) :: r == Winner(w)
  }

  /** The stream count and the name of the winner may depend on the order of arrival: the whole
      record of the winner is the same for every order if and only if all valid replies with its
      key agree. */
  lemma {:induction false} WholeRecordOrderIndependenceIff(replies: seq<(string, string)>,
                                                           probe: DiscoveredPeer -> Probe, w: DiscoveredPeer)
    requires ProbesEndpoints(probe) && RankSpec(replies, probe, Winner(w))
    ensures AlwaysWins(replies, probe, w) <==> Unanimous(replies, w)
  {
    if Unanimous(replies, w) {
      forall replies', r | multiset(replies') == multiset(replies) && RankSpec(replies', probe, r)
        ensures r == Winner(w)
      {
        UnanimousWinner(replies, replies', probe, w, r);
      }
    } else {
      var p :| p in ValidPeers(replies) && Key(p) == Key(w) && p.(bytesPerSecond := w.bytesPerSecond) != w;
      var replies' := MoveToFront(replies, p);
      var w' := CounterpartIsBest(replies, replies', probe, w);
      var c := WinnerComesFrom(replies', probe, w');
      CandidateOfKey(replies', c, p);
      assert RankSpec(replies', probe, Winner(w'));
    }
  }

  lemma {:induction false} UnanimousWinner(replies: seq<(string, string)>, replies': seq<(string, string)>,
                                           probe: DiscoveredPeer -> Probe, w: DiscoveredPeer, r: RankResult)
    requires ProbesEndpoints(probe) && RankSpec(replies, probe, Winner(w)) && Unanimous(replies, w)
    requires multiset(replies') == multiset(replies) && RankSpec(replies', probe, r)
    ensures r == Winner(w)
  {
    OrderIndependence(replies, replies', probe, Winner(w), r);
    hide Candidates, Successful, Faster;
    var c := WinnerComesFrom(replies', probe, r.peer);
    SameValidPeers(replies', replies, c);
  }

  // ----- The same, on the replies alone -----

  /** Valid replies of equal key advertise the same peer. */
  ghost predicate Agree(replies: seq<(string, string)>) {
    forall p, q | p in ValidPeers(replies) && q in ValidPeers(replies) && Key(p) == Key(q) :: p == q
  }

  /** A probe that succeeds at one endpoint only. */
  function OnlyAt(key: (string, nat, nat)): DiscoveredPeer -> Probe {
    (p: DiscoveredPeer) => if Key(p) == key then Rate(1.0) else Failed("")
  }

  /** Any advertised endpoint can win. */
  lemma {:induction false} CanWin(replies: seq<(string, string)>, p: DiscoveredPeer) returns (w: DiscoveredPeer)
    requires p in ValidPeers(replies)
    ensures ProbesEndpoints(OnlyAt(Key(p))) && RankSpec(replies, OnlyAt(Key(p)), Winner(w)) && Key(w) == Key(p)
  {
    hide ParseAdvertisement, Faster, FirstOfEachKey, ValidPeers, Successful;
    var probe := OnlyAt(Key(p));
    FirstOfEachKeyFacts(ValidPeers(replies));
    SuccessfulFrom(Candidates(replies), probe);
    assert Key(p) in Keys(Candidates(replies));
    var c :| c in Candidates(replies) && Key(c) == Key(p);
    w := c.(bytesPerSecond := 1.0);
    NotFasterThanItself(w);
    forall q | q in Successful(Candidates(replies), probe)
      ensures !Faster(q, w)
    {
      var d :| d in Candidates(replies) && probe(d).Rate? && q == d.(bytesPerSecond := probe(d).bytesPerSecond);
      CandidateOfKey(replies, c, d);
    }
  }

  lemma {:induction false} NotFasterThanItself(p: DiscoveredPeer)
    ensures !Faster(p, p)
  {
    PrecedesTotal(p, p);
  }

  /** For every probe of endpoints, the whole record of the winner is independent of the order of
      arrival, if and only if any two valid replies of equal key agree. */
  lemma {:induction false} RecordsOrderIndependentIff(replies: seq<(string, string)>)
    ensures (forall probe, w | ProbesEndpoints(probe) && RankSpec(replies, probe, Winner(w)) ::
               AlwaysWins(replies, probe, w))
            <==> Agree(replies)
  {
    hide Candidates, ValidPeers, Best, AlwaysWins, RankSpec;
    if Agree(replies) {
      forall probe, w | ProbesEndpoints(probe) && RankSpec(replies, probe, Winner(w))
        ensures AlwaysWins(replies, probe, w)
      {
        WinnerIsSuccessful(replies, probe, w);
        var c := WinnerComesFrom(replies, probe, w);
        WholeRecordOrderIndependenceIff(replies, probe, w);
      }
    } else {
      var p, q :| p in ValidPeers(replies) && q in ValidPeers(replies) && Key(p) == Key(q) && p != q;
      var w := CanWin(replies, p);
      ValidPeersUnrated(replies, p, q);
      WholeRecordOrderIndependenceIff(replies, OnlyAt(Key(p)), w);
    }
  }

  lemma {:induction false} WinnerIsSuccessful(replies: seq<(string, string)>, probe: DiscoveredPeer -> Probe,
                                              w: DiscoveredPeer)
    requires RankSpec(replies, probe, Winner(w))
    ensures w in Successful(Candidates(replies), probe)
  {
  }

  lemma {:induction false} ValidPeersUnrated(replies: seq<(string, string)>, p: DiscoveredPeer, q: DiscoveredPeer)
    requires p in ValidPeers(replies) && q in ValidPeers(replies) && p != q
    ensures p.bytesPerSecond == q.bytesPerSecond
    ensures forall rate :: p.(bytesPerSecond := rate) != q.(bytesPerSecond := rate)
  {
    ValidPeersWellFormed(replies);
    assert WellFormedPeer(p) && WellFormedPeer(q);
  }

  /** Two replies of one sender can disagree: then the winner's stream count and name depend on which
      arrives first. */
  lemma {:induction false} RepliesCanDisagree(source: string) returns (replies: seq<(string, string)>)
    requires Ipv4Octets(source).Some?
    ensures !Agree(replies)
  {
    hide ParseAdvertisement, Advertise, Ipv4Octets;
    var first, second := Advertise(1, 2, 1, "a"), Advertise(1, 2, 2, "b");
    ShortNumbers();
    AdvertisementRoundTrip(1, 2, 1, "a", source);
    AdvertisementRoundTrip(1, 2, 2, "b", source);
    replies := [(first, source), (second, source)];
    ValidPeersWellFormed(replies);
    assert replies[0] in replies && replies[1] in replies;
  }

  lemma {:induction false} ShortNumbers()
    ensures |Advertise(1, 2, 1, "a")| <= MAXIMUM_ADVERTISEMENT_BYTES
    ensures |Advertise(1, 2, 2, "b")| <= MAXIMUM_ADVERTISEMENT_BYTES
  {
  }
}
