/** The responder's probe listener: a bounded set of clients, each served for at most one second. */
module ProbeServer {

  const MAXIMUM_CONCURRENT_PROBE_CLIENTS: nat := 16

  const PROBE_WINDOW: nat := 1_000_000  // one second, in microseconds

  datatype ActiveProbe = ActiveProbe(socket: nat, deadline: nat)

  /** accept() returned `socket` at time `at`. */
  datatype Accept = Accept(socket: nat, at: nat)

  /** What one round of the loop meets: the result of select (`ready` is its return value,
      `writable` the client sockets it reports), the connections accept returned before it found
      none, the clock after accepting, and for each socket whether a send would succeed. */
  datatype Round = Round(ready: int, listening: bool, writable: set<nat>, accepted: seq<Accept>, now: nat,
                         sendOk: nat -> bool)

  function Sockets(clients: seq<ActiveProbe>): set<nat> {
    set c | c in clients :: c.socket
  }

  /** Accepting one connection: beyond the limit it is dropped at once. */
  function Admit(clients: seq<ActiveProbe>, a: Accept): seq<ActiveProbe> {
    if |clients| >= MAXIMUM_CONCURRENT_PROBE_CLIENTS then clients
    else clients + [ActiveProbe(a.socket, a.at + PROBE_WINDOW)]
  }

  function AdmitAll(clients: seq<ActiveProbe>, accepted: seq<Accept>): seq<ActiveProbe> {
    if accepted == [] then clients
    else Admit(AdmitAll(clients, accepted[..|accepted| - 1]), accepted[|accepted| - 1])
  }

  /** The clients that `drop` does not remove, in order. */
  function Keep(clients: seq<ActiveProbe>, drop: ActiveProbe -> bool): seq<ActiveProbe> {
    if clients == [] then []
    else
      var n := |clients| - 1;
      Keep(clients[..n], drop) + if drop(clients[n]) then [] else [clients[n]]
  }

  function Admitted(clients: seq<ActiveProbe>, round: Round): seq<ActiveProbe> {
    if round.ready > 0 && round.listening then AdmitAll(clients, round.accepted) else clients
  }

  /** The clients whose deadline has been reached at `now`. */
  function Expired(now: nat): ActiveProbe -> bool {
    (c: ActiveProbe) => c.deadline <= now
  }

  function Unexpired(clients: seq<ActiveProbe>, round: Round): seq<ActiveProbe> {
    Keep(Admitted(clients, round), Expired(round.now))
  }

  function FailsSend(round: Round): ActiveProbe -> bool {
    (c: ActiveProbe) => c.socket in round.writable && !round.sendOk(c.socket)
  }

  /** The clients after one round. */
  function After(clients: seq<ActiveProbe>, round: Round): seq<ActiveProbe> {
    if round.ready > 0 then Keep(Unexpired(clients, round), FailsSend(round)) else Unexpired(clients, round)
  }

  /** The sockets of `clients` that are in `writable`, in order. */
  function WritableSockets(clients: seq<ActiveProbe>, writable: set<nat>): seq<nat> {
    if clients == [] then []
    else
      var n := |clients| - 1;
      WritableSockets(clients[..n], writable) + if clients[n].socket in writable then [clients[n].socket] else []
  }

  lemma {:induction false} NothingKept(drop: ActiveProbe -> bool, writable: set<nat>)
    ensures Keep([], drop) == [] && WritableSockets([], writable) == []
  {
  }

  lemma {:induction false} OneMoreKept(clients: seq<ActiveProbe>, drop: ActiveProbe -> bool, k: nat)
    requires k < |clients|
    ensures Keep(clients[..k + 1], drop) == Keep(clients[..k], drop) + if drop(clients[k]) then [] else [clients[k]]
  {
    assert clients[..k + 1][..k] == clients[..k];
  }

  lemma {:induction false} OneMoreWritable(clients: seq<ActiveProbe>, writable: set<nat>, k: nat)
    requires k < |clients|
    ensures WritableSockets(clients[..k + 1], writable) ==
            WritableSockets(clients[..k], writable) + if clients[k].socket in writable then [clients[k].socket] else []
  {
    assert clients[..k + 1][..k] == clients[..k];
  }

  /** The sends of one round, in order. */
  function Sends(clients: seq<ActiveProbe>, round: Round): seq<nat> {
    if round.ready > 0 then WritableSockets(Unexpired(clients, round), round.writable) else []
  }

  /** The connections to the clients: each send attempted is logged. */
  class Connections {
    ghost var log: seq<nat>

    constructor ()
      ensures log == []
    {
      log := [];
    }

    /** Attempts one send to a client; `round` decides whether it succeeds. */
    method SendProbeBytes(round: Round, socket: nat) returns (ok: bool)
      modifies this
      ensures ok == round.sendOk(socket) && log == old(log) + [socket]
    {
      ok := round.sendOk(socket);
      log := log + [socket];
    }
  }

  class ProbeServer {
    var activeClients: seq<ActiveProbe>

    constructor ()
      ensures activeClients == []
    {
      activeClients := [];
    }

    /** One round of serve_probes. */
    method ServeRound(round: Round, connections: Connections)
      modifies this, connections
      ensures activeClients == After(old(activeClients), round)
      ensures connections.log == old(connections.log) + Sends(old(activeClients), round)
    {
      ghost var before := activeClients;
      if round.ready > 0 && round.listening {
        for k := 0 to |round.accepted|
          invariant activeClients == AdmitAll(before, round.accepted[..k])
          invariant connections.log == old(connections.log)
        {
          assert round.accepted[..k + 1][..k] == round.accepted[..k];
          if |activeClients| < MAXIMUM_CONCURRENT_PROBE_CLIENTS {
            var deadline := round.accepted[k].at + PROBE_WINDOW;
            activeClients := activeClients + [ActiveProbe(round.accepted[k].socket, deadline)];
          }
        }
        assert round.accepted[..|round.accepted|] == round.accepted;
      }
      var now := round.now;
      RemoveIf(Expired(now));
      if round.ready > 0 {
        SendToWritable(round, connections);
      } else {
        assert connections.log + [] == connections.log;
      }
    }

    /** erase(remove_if): moves the kept clients forward over the removed ones and cuts the rest. */
    method RemoveIf(drop: ActiveProbe -> bool)
      modifies this
      ensures activeClients == Keep(old(activeClients), drop)
    {
      hide Keep;
      NothingKept(drop, {});
      ghost var before := activeClients;
      var kept := 0;
      for k := 0 to |activeClients|
        invariant kept <= k <= |activeClients| == |before|
        invariant activeClients[..kept] == Keep(before[..k], drop)
        invariant activeClients[k..] == before[k..]
      {
        OneMoreKept(before, drop, k);
        assert activeClients[k] == before[k];
        if !drop(activeClients[k]) {
          activeClients := activeClients[kept := activeClients[k]];
          kept := kept + 1;
        }
      }
      assert before[..|before|] == before;
      activeClients := activeClients[..kept];
    }

    /** The second pass sends to each writable client once and removes those whose send fails. */
    method SendToWritable(round: Round, connections: Connections)
      modifies this, connections
      ensures activeClients == Keep(old(activeClients), FailsSend(round))
      ensures connections.log == old(connections.log) + WritableSockets(old(activeClients), round.writable)
    {
      hide Keep, WritableSockets;
      NothingKept(FailsSend(round), round.writable);
      assert connections.log + [] == connections.log;
      ghost var before := activeClients;
      var kept := 0;
      for k := 0 to |activeClients|
        invariant kept <= k <= |activeClients| == |before|
        invariant activeClients[..kept] == Keep(before[..k], FailsSend(round))
        invariant activeClients[k..] == before[k..]
        invariant connections.log == old(connections.log) + WritableSockets(before[..k], round.writable)
      {
        var client := activeClients[k];
        assert client == before[k];
        OneMoreKept(before, FailsSend(round), k);
        OneMoreWritable(before, round.writable, k);
        var failed := false;
        if client.socket in round.writable {
          var ok := connections.SendProbeBytes(round, client.socket);
          failed := !ok;
        }
        if !failed {
          activeClients := activeClients[kept := client];
          kept := kept + 1;
        }
      }
      assert before[..|before|] == before;
      activeClients := activeClients[..kept];
    }
  }

  // ----- The invariant of every run -----

  ghost predicate DistinctSockets(clients: seq<ActiveProbe>) {
    forall i, j | 0 <= i < j < |clients| :: clients[i].socket != clients[j].socket
  }

  /** The operating system hands out sockets that are not in use; a dropped one is closed and may
      come again. */
  ghost predicate FreshAccepts(clients: seq<ActiveProbe>, accepted: seq<Accept>) {
    forall k | 0 <= k < |accepted| :: accepted[k].socket !in Sockets(AdmitAll(clients, accepted[..k]))
  }

  /** What select and accept guarantee in a round that starts with `clients`: only sockets put in
      the write set are reported, accepted sockets are fresh, and the clock does not run back. */
  ghost predicate Possible(clients: seq<ActiveProbe>, round: Round) {
    && (round.ready > 0 ==> round.writable <= Sockets(clients))
    && FreshAccepts(clients, round.accepted)
    && forall k | 0 <= k < |round.accepted| :: round.accepted[k].at <= round.now
  }

  ghost predicate Inv(clients: seq<ActiveProbe>) {
    |clients| <= MAXIMUM_CONCURRENT_PROBE_CLIENTS && DistinctSockets(clients)
  }

  /** A filter keeps exactly the clients it does not drop, in their order. */
  lemma {:induction false} KeepFacts(clients: seq<ActiveProbe>, drop: ActiveProbe -> bool) returns (from: seq<nat>)
    ensures |from| == |Keep(clients, drop)| <= |clients|
    ensures forall i | 0 <= i < |from| :: from[i] < |clients| && Keep(clients, drop)[i] == clients[from[i]]
    ensures forall i, j | 0 <= i < j < |from| :: from[i] < from[j]
    ensures forall c :: c in Keep(clients, drop) <==> c in clients && !drop(c)
  {
    if clients == [] {
      return [];
    }
    var n := |clients| - 1;
    from := KeepFacts(clients[..n], drop);
    assert clients == clients[..n] + [clients[n]];
    if !drop(clients[n]) {
      from := from + [n];
    }
  }

  lemma {:induction false} KeepDistinct(clients: seq<ActiveProbe>, drop: ActiveProbe -> bool)
    requires DistinctSockets(clients)
    ensures DistinctSockets(Keep(clients, drop)) && |Keep(clients, drop)| <= |clients|
  {
    var from := KeepFacts(clients, drop);
  }

  /** `c` is the client made of one of the accepted connections. */
  ghost predicate FromAccept(c: ActiveProbe, accepted: seq<Accept>) {
    exists a :: a in accepted && c == ActiveProbe(a.socket, a.at + PROBE_WINDOW)
  }

  lemma {:induction false} AdmitInv(clients: seq<ActiveProbe>, a: Accept)
    requires Inv(clients) && a.socket !in Sockets(clients)
    ensures Inv(Admit(clients, a))
  {
    assert forall i | 0 <= i < |clients| :: clients[i] in clients && clients[i].socket in Sockets(clients);
  }

  lemma {:induction false} AdmitAllInv(clients: seq<ActiveProbe>, accepted: seq<Accept>)
    requires Inv(clients) && FreshAccepts(clients, accepted)
    ensures Inv(AdmitAll(clients, accepted))
  {
    hide Inv, Admit;
    if accepted != [] {
      var n := |accepted| - 1;
      assert forall k | 0 <= k < n :: accepted[..n][..k] == accepted[..k];
      AdmitAllInv(clients, accepted[..n]);
      AdmitInv(AdmitAll(clients, accepted[..n]), accepted[n]);
    }
  }

  lemma {:induction false} AdmitAllFrom(clients: seq<ActiveProbe>, accepted: seq<Accept>)
    ensures clients <= AdmitAll(clients, accepted)
    ensures forall c | c in AdmitAll(clients, accepted) :: c in clients || FromAccept(c, accepted)
  {
    if accepted != [] {
      var n := |accepted| - 1;
      AdmitAllFrom(clients, accepted[..n]);
      assert accepted == accepted[..n] + [accepted[n]];
      var before := AdmitAll(clients, accepted[..n]);
      forall c | c in AdmitAll(clients, accepted) && c !in clients
        ensures FromAccept(c, accepted)
      {
        if c in before {
          var a :| a in accepted[..n] && c == ActiveProbe(a.socket, a.at + PROBE_WINDOW);
          assert a in accepted;
        } else {
          assert accepted[n] in accepted;
        }
      }
    }
  }

  /** The client that accepted connection `k` becomes. */
  function ClientOf(a: Accept): ActiveProbe {
    ActiveProbe(a.socket, a.at + 1_000_000)
  }

  /** Accepted connections become clients, in order behind the others, until there are 16. */
  lemma {:induction false} AdmitAllFills(clients: seq<ActiveProbe>, accepted: seq<Accept>)
    requires |clients| <= 16
    ensures var all := AdmitAll(clients, accepted);
            && clients <= all
            && |all| == (if |clients| + |accepted| <= 16 then |clients| + |accepted| else 16)
            && forall k | 0 <= k < |accepted| && |clients| + k < 16 :: all[|clients| + k] == ClientOf(accepted[k])
  {
    if accepted != [] {
      var n := |accepted| - 1;
      AdmitAllFills(clients, accepted[..n]);
      assert forall k | 0 <= k < n :: accepted[..n][k] == accepted[k];
    }
  }

  /** Which accepted connections a round leaves as clients, when the listener is ready: connection `k`
      is given place `|clients| + k` exactly if that is below 16, and is there after the round exactly
      if also its deadline has not been reached and no send to it failed. */
  lemma {:induction false} RoundAdmits(clients: seq<ActiveProbe>, round: Round, k: nat)
    requires Inv(clients) && Possible(clients, round) && round.ready > 0 && round.listening
    requires k < |round.accepted|
    ensures var c, admitted, place := ClientOf(round.accepted[k]), Admitted(clients, round), |clients| + k;
            && (c in admitted <==> place < 16)
            && (place < 16 ==> place < |admitted| <= 16 && admitted[place] == c)
            && (c in After(clients, round) <==>
                  && place < 16 && c.deadline > round.now
                  && !(c.socket in round.writable && !round.sendOk(c.socket)))
  {
    var c, admitted := ClientOf(round.accepted[k]), Admitted(clients, round);
    AdmitAllFills(clients, round.accepted);
    if |clients| + k >= 16 {
      FullStaysFull(clients, round.accepted, k);
      SocketOf(AdmitAll(clients, round.accepted[..k]), c);
    }
    var from := KeepFacts(admitted, Expired(round.now));
    var from' := KeepFacts(Unexpired(clients, round), FailsSend(round));
  }

  lemma {:induction false} SocketOf(clients: seq<ActiveProbe>, c: ActiveProbe)
    ensures c in clients ==> c.socket in Sockets(clients)
  {
  }

  /** Once the limit is reached, later connections are dropped. */
  lemma {:induction false} FullStaysFull(clients: seq<ActiveProbe>, accepted: seq<Accept>, k: nat)
    requires |clients| <= 16 && k <= |accepted| && |clients| + k >= 16
    ensures AdmitAll(clients, accepted) == AdmitAll(clients, accepted[..k])
    decreases |accepted|
  {
    if k == |accepted| {
      assert accepted[..k] == accepted;
    } else {
      var n := |accepted| - 1;
      FullStaysFull(clients, accepted[..n], k);
      assert accepted[..n][..k] == accepted[..k];
      AdmitAllFills(clients, accepted[..n]);
    }
  }

  lemma {:induction false} AdmittedInv(clients: seq<ActiveProbe>, round: Round)
    requires Inv(clients) && Possible(clients, round)
    ensures Inv(Admitted(clients, round))
    ensures forall c | c in Admitted(clients, round) ::
              c in clients || FromAccept(c, round.accepted)
    ensures clients <= Admitted(clients, round)
  {
    AdmitAllInv(clients, round.accepted);
    AdmitAllFrom(clients, round.accepted);
  }

  /** A round keeps at most 16 clients with distinct sockets, after each connection it accepts and
      after each of its passes. */
  lemma {:induction false} RoundKeepsInv(clients: seq<ActiveProbe>, round: Round)
    requires Inv(clients) && Possible(clients, round)
    ensures forall k | 0 <= k <= |round.accepted| :: Inv(AdmitAll(clients, round.accepted[..k]))
    ensures Inv(Admitted(clients, round))
    ensures Inv(Unexpired(clients, round))
    ensures Inv(After(clients, round))
  {
    hide Inv, AdmitAll, After, Unexpired, Possible;
    forall k | 0 <= k <= |round.accepted|
      ensures Inv(AdmitAll(clients, round.accepted[..k]))
    {
      FreshPrefix(clients, round, k);
      AdmitAllInv(clients, round.accepted[..k]);
    }
    PassesKeepInv(clients, round);
  }

  lemma {:induction false} FreshPrefix(clients: seq<ActiveProbe>, round: Round, k: nat)
    requires Possible(clients, round) && k <= |round.accepted|
    ensures FreshAccepts(clients, round.accepted[..k])
  {
    assert forall j | 0 <= j < k :: round.accepted[..k][..j] == round.accepted[..j];
  }

  lemma {:induction false} PassesKeepInv(clients: seq<ActiveProbe>, round: Round)
    requires Inv(clients) && Possible(clients, round)
    ensures Inv(Admitted(clients, round)) && Inv(Unexpired(clients, round)) && Inv(After(clients, round))
  {
    AdmittedInv(clients, round);
    KeepDistinct(Admitted(clients, round), Expired(round.now));
    KeepDistinct(Unexpired(clients, round), FailsSend(round));
  }

  /** Who is served and who stays: a client that survives a round has a later deadline than the
      round's clock; a client of the round before is removed exactly if it expired or its send failed. */
  lemma {:induction false} RoundSurvivors(clients: seq<ActiveProbe>, round: Round)
    requires Inv(clients) && Possible(clients, round)
    ensures forall c | c in After(clients, round) :: c.deadline > round.now
    ensures forall c | c in clients ::
              c in After(clients, round) <==>
              c.deadline > round.now && !(round.ready > 0 && c.socket in round.writable && !round.sendOk(c.socket))
    ensures forall c | c in After(clients, round) && c !in clients ::
              round.ready > 0 && round.listening && FromAccept(c, round.accepted)
  {
    AdmittedInv(clients, round);
    var from := KeepFacts(Admitted(clients, round), Expired(round.now));
    var from' := KeepFacts(Unexpired(clients, round), FailsSend(round));
  }

  /** Both compactions keep the order of the survivors: they are the clients at increasing positions
      `from` of the old list with the admitted connections at its end. */
  lemma {:induction false} SurvivorsKeepOrder(clients: seq<ActiveProbe>, round: Round) returns (from: seq<nat>)
    ensures clients <= Admitted(clients, round)
    ensures |from| == |After(clients, round)|
    ensures forall i, j | 0 <= i < j < |from| :: from[i] < from[j]
    ensures forall i | 0 <= i < |from| ::
              from[i] < |Admitted(clients, round)| && After(clients, round)[i] == Admitted(clients, round)[from[i]]
  {
    AdmitAllFrom(clients, round.accepted);
    from := KeepFacts(Admitted(clients, round), Expired(round.now));
    if round.ready > 0 {
      var second := KeepFacts(Unexpired(clients, round), FailsSend(round));
      from := seq(|second|, i requires 0 <= i < |second| => from[second[i]]);
    }
  }

  lemma {:induction false} WritableFacts(clients: seq<ActiveProbe>, writable: set<nat>)
    requires DistinctSockets(clients)
    ensures forall s :: s in WritableSockets(clients, writable) <==> s in writable && s in Sockets(clients)
    ensures forall i, j | 0 <= i < j < |WritableSockets(clients, writable)| ::
              WritableSockets(clients, writable)[i] != WritableSockets(clients, writable)[j]
  {
    if clients != [] {
      var n := |clients| - 1;
      WritableFacts(clients[..n], writable);
      assert clients == clients[..n] + [clients[n]];
      assert Sockets(clients) == Sockets(clients[..n]) + {clients[n].socket};
      assert clients[n].socket !in Sockets(clients[..n]);
    }
  }

  /** A send goes exactly to the clients that were put in this round's write set, were reported
      writable and have not expired, once to each. */
  lemma {:induction false} SendsAreLegitimate(clients: seq<ActiveProbe>, round: Round)
    requires Inv(clients) && Possible(clients, round)
    ensures forall s :: s in Sends(clients, round) <==>
              && round.ready > 0 && s in round.writable
              && exists c :: c in clients && c.socket == s && c.deadline > round.now
    ensures forall i, j | 0 <= i < j < |Sends(clients, round)| :: Sends(clients, round)[i] != Sends(clients, round)[j]
  {
    RoundKeepsInv(clients, round);
    AdmittedInv(clients, round);
    var admitted, left := Admitted(clients, round), Unexpired(clients, round);
    var from := KeepFacts(admitted, Expired(round.now));
    if round.ready > 0 {
      WritableFacts(left, round.writable);
      forall s | s in Sends(clients, round)
        ensures exists c :: c in clients && c.socket == s && c.deadline > round.now
      {
        var c :| c in left && c.socket == s;
        var d :| d in clients && d.socket == s;
        SameSocket(admitted, c, d);
      }
      forall c | c in clients && c.socket in round.writable && c.deadline > round.now
        ensures c.socket in Sends(clients, round)
      {
        assert c in admitted && c in left;
      }
    }
  }

  lemma {:induction false} SameSocket(clients: seq<ActiveProbe>, c: ActiveProbe, d: ActiveProbe)
    requires DistinctSockets(clients) && c in clients && d in clients && c.socket == d.socket
    ensures c == d
  {
  }

  /** `states` is a run of the listener through `rounds`, each possible when it happens. */
  ghost predicate Run(states: seq<seq<ActiveProbe>>, rounds: seq<Round>) {
    && |states| == |rounds| + 1 && states[0] == []
    && (forall i | 0 <= i < |rounds| :: Possible(states[i], rounds[i]) && states[i + 1] == After(states[i], rounds[i]))
    && (forall i, j | 0 <= i < j < |rounds| :: rounds[i].now <= rounds[j].now)
  }

  /** In every run at most 16 clients with distinct sockets: between the rounds, and within each round
      after every accepted connection and every pass. */
  lemma {:induction false} AlwaysBounded(states: seq<seq<ActiveProbe>>, rounds: seq<Round>, i: nat)
    requires Run(states, rounds) && i <= |rounds|
    ensures Inv(states[i])
    ensures i < |rounds| ==>
              && (forall k | 0 <= k <= |rounds[i].accepted| :: Inv(AdmitAll(states[i], rounds[i].accepted[..k])))
              && Inv(Admitted(states[i], rounds[i])) && Inv(Unexpired(states[i], rounds[i]))
  {
    hide AdmitAll, Admitted, Unexpired;
    BoundedBetweenRounds(states, rounds, i);
    if i < |rounds| {
      RoundKeepsInv(states[i], rounds[i]);
    }
  }

  lemma {:induction false} BoundedBetweenRounds(states: seq<seq<ActiveProbe>>, rounds: seq<Round>, i: nat)
    requires Run(states, rounds) && i <= |rounds|
    ensures Inv(states[i])
  {
    if i > 0 {
      BoundedBetweenRounds(states, rounds, i - 1);
      PassesKeepInv(states[i - 1], rounds[i - 1]);
    }
  }

  /** No client is served longer than its window: after a round whose clock has reached a client's
      deadline the client is gone, and each client present was accepted less than a window ago. */
  lemma {:induction false} ClientsExpire(states: seq<seq<ActiveProbe>>, rounds: seq<Round>, i: nat, c: ActiveProbe)
    requires Run(states, rounds) && 0 < i <= |rounds| && c in states[i]
    ensures c.deadline > rounds[i - 1].now
    ensures exists k :: 0 <= k < i && FromAccept(c, rounds[k].accepted)
    ensures c.deadline <= rounds[i - 1].now + PROBE_WINDOW
  {
    BoundedBetweenRounds(states, rounds, i - 1);
    RoundSurvivors(states[i - 1], rounds[i - 1]);
    if c in states[i - 1] {
      ClientsExpire(states, rounds, i - 1, c);
    } else {
      var a :| a in rounds[i - 1].accepted && c == ActiveProbe(a.socket, a.at + PROBE_WINDOW);
    }
  }
}
