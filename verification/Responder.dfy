/** The responder's start: which options it accepts, where it puts the probe port, and what it
    advertises; and what a sender that reads the advertisement may rely on. */
module Responder {
  import opened Basics
  import opened Decimal
  import opened Ipv4
  import opened Advertisement

  /** 16-bit ports, a 32-bit stream count. */
  datatype Options =
    Options(transferPort: nat, probePort: nat, discoveryPort: nat, parallelStreams: nat, displayName: string)

  ghost predicate ValidOptions(o: Options) {
    && o.transferPort <= MAX_PORT && o.probePort <= MAX_PORT && o.discoveryPort <= MAX_PORT
    && o.parallelStreams < U32_MODULUS
  }

  datatype StartError =
    | InvalidOptions | TransferPortsExceeded | NoProbePort | AdvertisementTooLong
    | DiscoverySocketFailed | ProbeSocketFailed | ThreadFailed

  /** Which of the operating system's services are available to one start: the two sockets and the two
      threads, asked for in this order. */
  datatype System = System(discoverySocket: bool, probeSocket: bool, discoveryThread: bool, probeThread: bool)

  /** What a start that got past its options reports: the earliest service that is missing, if any. */
  ghost predicate Reports(system: System, error: Option<StartError>) {
    && (error == None <==>
          system.discoverySocket && system.probeSocket && system.discoveryThread && system.probeThread)
    && (error == Some(DiscoverySocketFailed) <==> !system.discoverySocket)
    && (error == Some(ProbeSocketFailed) <==> system.discoverySocket && !system.probeSocket)
    && (error == Some(ThreadFailed) <==>
          system.discoverySocket && system.probeSocket && !(system.discoveryThread && system.probeThread))
  }

  /** The last transfer port, in 64-bit arithmetic; it cannot wrap for a positive stream count. */
  function LastTransferPort(transferPort: nat, parallelStreams: nat): int {
    transferPort + parallelStreams - 1
  }

  /** Moves a probe port out of the transfer range: behind it if there is room, else before it. */
  function SelectProbePort(o: Options): Result<nat, StartError>
    requires o.transferPort > 0 && o.parallelStreams > 0
  {
    var last := LastTransferPort(o.transferPort, o.parallelStreams);
    if !(o.transferPort <= o.probePort <= last) then Ok(o.probePort)
    else if last < MAX_PORT then Ok((last + 1) % 0x1_0000)
    else if o.transferPort > 1 then Ok(o.transferPort - 1)
    else Err(NoProbePort)
  }

  /** What start() checks before it opens sockets. */
  function Prepare(o: Options): Result<(nat, string), StartError> {
    if o.transferPort == 0 || o.probePort == 0 || o.discoveryPort == 0 || o.parallelStreams == 0
       || o.displayName == [] then
      Err(InvalidOptions)
    else if LastTransferPort(o.transferPort, o.parallelStreams) > MAX_PORT then Err(TransferPortsExceeded)
    else
      match SelectProbePort(o)
      case Err(e) => Err(e)
      case Ok(probePort) =>
        var advertisement := Advertise(o.transferPort, probePort, o.parallelStreams, o.displayName);
        if |advertisement| > MAXIMUM_ADVERTISEMENT_BYTES then Err(AdvertisementTooLong)
        else Ok((probePort, advertisement))
  }

  /** PeerDiscoveryResponder::Impl. Each socket belongs to the thread that serves it. */
  class PeerDiscoveryResponder {
    const options: Options
    var running: bool
    var selectedProbePort: nat
    var advertisement: string
    var discoveryThread: bool  // is there a thread that answers discovery messages?
    var probeThread: bool      // is there a thread that serves probes?

    /** A running responder has both threads and serves exactly what its options prepare; a stopped one
        has neither thread. */
    ghost predicate Valid()
      reads this
    {
      && ValidOptions(options)
      && (running ==> Prepare(options) == Ok((selectedProbePort, advertisement)))
      && discoveryThread == probeThread == running
    }

    constructor (options: Options)
      requires ValidOptions(options)
      ensures Valid() && !running && this.options == options
    {
      this.options := options;
      running := false;
      selectedProbePort := 0;
      advertisement := "";
      discoveryThread := false;
      probeThread := false;
    }

    /** A second start changes nothing. The first one fails with the first thing that is wrong, options
        before services, and then leaves no thread behind; otherwise the responder runs. */
    method Start(system: System) returns (error: Option<StartError>)
      requires Valid()
      modifies this
      ensures Valid()
      ensures old(running) ==> error == None && unchanged(this)
      ensures !old(running) ==>
                && running == (error == None)
                && match Prepare(options)
                   case Err(e) => error == Some(e)
                   case Ok(_) => Reports(system, error)
    {
      if running {
        return None;
      }
      running := true;
      error := Configure();
      if error == None {
        error := Launch(system);
      }
      if error.Some? {
        Stop();
      }
    }

    /** Opens the sockets and starts the threads, as far as possible. */
    method Launch(system: System) returns (error: Option<StartError>)
      modifies this`discoveryThread, this`probeThread
      ensures Reports(system, error)
      ensures error == None ==> discoveryThread && probeThread
    {
      if !system.discoverySocket {
        return Some(DiscoverySocketFailed);
      }
      if !system.probeSocket {
        return Some(ProbeSocketFailed);
      }
      if !system.discoveryThread {
        return Some(ThreadFailed);
      }
      discoveryThread := true;
      if !system.probeThread {
        return Some(ThreadFailed);
      }
      probeThread := true;
      return None;
    }

    /** The checks and assignments of start(), up to the sockets. */
    method Configure() returns (error: Option<StartError>)
      requires ValidOptions(options)
      modifies this`selectedProbePort, this`advertisement
      ensures match Prepare(options)
              case Err(e) => error == Some(e)
              case Ok((probePort, text)) => error == None && selectedProbePort == probePort && advertisement == text
    {
      if options.transferPort == 0 || options.probePort == 0 || options.discoveryPort == 0
         || options.parallelStreams == 0 || options.displayName == [] {
        return Some(InvalidOptions);
      }
      var lastTransferPort := options.transferPort + options.parallelStreams - 1;
      if lastTransferPort > MAX_PORT {
        return Some(TransferPortsExceeded);
      }
      selectedProbePort := options.probePort;
      if selectedProbePort >= options.transferPort && selectedProbePort <= lastTransferPort {
        if lastTransferPort < MAX_PORT {
          selectedProbePort := (lastTransferPort + 1) % 0x1_0000;
        } else if options.transferPort > 1 {
          selectedProbePort := options.transferPort - 1;
        } else {
          return Some(NoProbePort);
        }
      }
      advertisement := Advertise(options.transferPort, selectedProbePort, options.parallelStreams, options.displayName);
      if |advertisement| > MAXIMUM_ADVERTISEMENT_BYTES {
        return Some(AdvertisementTooLong);
      }
      return None;
    }

    /** Also stops a responder whose start got stuck half-way; what it was configured with stays. */
    method Stop()
      requires ValidOptions(options)
      modifies this`running, this`discoveryThread, this`probeThread
      ensures Valid() && !running
    {
      running := false;
      discoveryThread := false;
      probeThread := false;
    }
  }

  // ----- Ports -----

  /** endpoint_for_stream: the port of one stream, truncated to 16 bits. */
  function StreamPort(port: nat, stream: nat): nat {
    (port + stream) % 0x1_0000
  }

  /** The sender's own check on discovered or given ports. */
  predicate PortsInRange(port: nat, parallel: nat) {
    port + parallel - 1 <= MAX_PORT
  }

  /** Under the sender's check no stream port is truncated, and all of them are distinct and in
      1..65535. Beyond it, the last stream's port is truncated. */
  lemma {:induction false} StreamPortsDistinct(port: nat, parallel: nat)
    requires 1 <= port <= MAX_PORT && 1 <= parallel < U32_MODULUS
    ensures PortsInRange(port, parallel) <==> forall s | 0 <= s < parallel :: StreamPort(port, s) == port + s
    ensures PortsInRange(port, parallel) ==>
              && (forall s | 0 <= s < parallel :: 1 <= StreamPort(port, s) <= MAX_PORT)
              && (forall s, t | 0 <= s < t < parallel :: StreamPort(port, s) != StreamPort(port, t))
  {
    if !PortsInRange(port, parallel) {
      assert StreamPort(port, parallel - 1) != port + (parallel - 1);
    }
  }

  /** The probe port search fails exactly when the transfer ports are all of 1..65535. */
  lemma {:induction false} NoProbePortIff(o: Options)
    requires ValidOptions(o) && o.transferPort > 0 && o.probePort > 0 && o.parallelStreams > 0
    requires LastTransferPort(o.transferPort, o.parallelStreams) <= MAX_PORT
    ensures SelectProbePort(o).Err? <==> o.transferPort == 1 && o.parallelStreams == MAX_PORT
  {
  }

  /** Where the probe port goes: a port outside the transfer range is kept; one inside moves right behind
      the range or, where that ends with the last port, right before it. */
  lemma {:induction false} ProbePortChoice(o: Options)
    requires ValidOptions(o) && o.transferPort > 0 && o.probePort > 0 && o.parallelStreams > 0
    requires o.transferPort + o.parallelStreams <= 65536
    ensures var first, end := o.transferPort, o.transferPort + o.parallelStreams;
            && (o.probePort < first || o.probePort >= end ==> SelectProbePort(o) == Ok(o.probePort))
            && (first <= o.probePort < end <= 65535 ==> SelectProbePort(o) == Ok(end))
            && (first <= o.probePort < end == 65536 && first > 1 ==> SelectProbePort(o) == Ok(first - 1))
  {
  }

  /** Nothing that has to be set is missing. */
  predicate Complete(o: Options) {
    o.transferPort >= 1 && o.probePort >= 1 && o.discoveryPort >= 1 && o.parallelStreams >= 1 && |o.displayName| >= 1
  }

  /** Exactly which options are refused, and with what: the first fault counts. In particular complete
      options with a free port and a name of at most 480 characters are accepted, and what is advertised
      then are the transfer port, the chosen probe port, the number of streams and the name. */
  lemma {:induction false} PrepareExact(o: Options)
    requires ValidOptions(o)
    ensures var inRange := o.transferPort + o.parallelStreams <= 65536;
            var full := o.transferPort == 1 && o.parallelStreams == 65535;
            && (Prepare(o) == Err(InvalidOptions) <==> !Complete(o))
            && (Prepare(o) == Err(TransferPortsExceeded) <==> Complete(o) && !inRange)
            && (Prepare(o) == Err(NoProbePort) <==> Complete(o) && inRange && full)
            && (Complete(o) && inRange && !full ==>
                  SelectProbePort(o).Ok?
                  && var text := Advertise(o.transferPort, SelectProbePort(o).value, o.parallelStreams, o.displayName);
                     && (|o.displayName| <= 480 ==> |text| <= 512)
                     && Prepare(o) == if |text| <= 512 then Ok((SelectProbePort(o).value, text))
                                      else Err(AdvertisementTooLong))
  {
    hide Advertise;
    if Complete(o) && o.transferPort + o.parallelStreams <= 65536 {
      NoProbePortIff(o);
      if SelectProbePort(o).Ok? {
        AdvertisementLength(o.transferPort, SelectProbePort(o).value, o.parallelStreams, o.displayName);
      }
    }
  }

  lemma {:induction false} AdvertisementLength(transferPort: nat, probePort: nat, streams: nat, name: string)
    requires transferPort <= 65535 && probePort <= 65535 && streams <= 65535
    ensures |Advertise(transferPort, probePort, streams, name)| <= 32 + |name|
  {
    assert Pow10(5) == 100000 by {
      assert Pow10(2) == 100 && Pow10(4) == 100 * Pow10(2);
    }
    PrintLength(transferPort, 5);
    PrintLength(probePort, 5);
    PrintLength(streams, 5);
    hide Print;
  }

  /** End to end: whatever options a responder accepts, a sender that reads its advertisement
      obtains these very settings, passes its own range check, connects its streams to distinct
      untruncated ports, and none of them is the advertised probe port. */
  lemma {:induction false} AdvertisedPortsWork(o: Options, source: string)
    requires ValidOptions(o) && Prepare(o).Ok? && Ipv4Octets(source).Some?
    ensures var peer := ParseAdvertisement(Prepare(o).value.1, source);
            && peer.Some?
            && peer.value.endpoint == PeerEndpoint(source, o.transferPort, Prepare(o).value.0, o.parallelStreams)
            && peer.value.displayName == o.displayName
            && PortsInRange(o.transferPort, o.parallelStreams)
            && (forall s | 0 <= s < o.parallelStreams ::
                  && StreamPort(o.transferPort, s) == o.transferPort + s <= MAX_PORT
                  && StreamPort(o.transferPort, s) != Prepare(o).value.0)
            && 1 <= Prepare(o).value.0 <= MAX_PORT
  {
    hide ParseAdvertisement, Advertise, Ipv4Octets;
    AdvertisementRoundTrip(o.transferPort, Prepare(o).value.0, o.parallelStreams, o.displayName, source);
    StreamPortsDistinct(o.transferPort, o.parallelStreams);
  }
}
