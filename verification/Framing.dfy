/** Records on one stream: a header, a name and a payload. The imperative receive loops are
    proved equal to a reference parser over the whole byte stream, and the reference parser
    is proved to invert the encoder on complete streams and to refuse cut ones. */
module Framing {
  import opened Basics
  import opened Wire
  import opened Transport

  const CHUNK_BYTES: nat := 4 * 1024 * 1024

  datatype Record = Record(kind: U64, name: Bytes, offset: U64, totalSize: U64, payload: Bytes)

  /** A decoded header together with the name that follows it. */
  datatype Incoming = Incoming(header: Header, name: Bytes)

  datatype StreamError =
    | ClosedInHeader       // the connection ended in the middle of a header
    | ClosedEarly          // the connection ended inside a name or a payload
    | Malformed(error: HeaderError)
    | UnsupportedKind      // a tar stream on a parallel connection

  datatype Ending = CleanEnd | Broken(error: StreamError)

  /** Directory entries carry no payload, so the receiver reads none. */
  function BodySize(h: Header): nat {
    if h.kind == KIND_DIRECTORY_ENTRY then 0 else h.payloadSize
  }

  function HeaderOf(r: Record): (h: Header)
    requires ValidRecord(r)
    ensures AcceptableHeader(h) && BodySize(h) == |r.payload|
  {
    Header(r.kind, |r.payload|, |r.name|, r.offset, r.totalSize)
  }

  /** The records a sender stream produces and a receiver stream supports. */
  ghost predicate ValidRecord(r: Record) {
    && ValidKind(r.kind) && r.kind != KIND_DIRECTORY_TAR
    && 1 <= |r.name| <= MAX_NAME_BYTES
    && |r.payload| < U64_MODULUS
    && (r.kind == KIND_DIRECTORY_ENTRY ==> r.payload == [])
  }

  ghost predicate ValidRecords(rs: seq<Record>) {
    forall i | 0 <= i < |rs| :: ValidRecord(rs[i])
  }

  ghost function EncodeRecord(r: Record): Bytes
    requires ValidRecord(r)
  {
    EncodeHeader(HeaderOf(r)) + r.name + r.payload
  }

  ghost function EncodeEach(rs: seq<Record>): (messages: seq<Bytes>)
    requires ValidRecords(rs)
    ensures |messages| == |rs|
    ensures forall i | 0 <= i < |rs| :: messages[i] == EncodeRecord(rs[i])
  {
    seq(|rs|, i requires 0 <= i < |rs| => EncodeRecord(rs[i]))
  }

  /** Everything a sender stream puts on its connection. */
  ghost function EncodeAll(rs: seq<Record>): Bytes
    requires ValidRecords(rs)
  {
    Flatten(EncodeEach(rs))
  }

  lemma {:induction false} EncodeAllFirst(rs: seq<Record>)
    requires ValidRecords(rs) && rs != []
    ensures EncodeAll(rs) == EncodeRecord(rs[0]) + EncodeAll(rs[1..])
  {
    assert EncodeEach(rs)[1..] == EncodeEach(rs[1..]);
  }

  // ----- The reference parser -----

  datatype Next = End | Bad(error: StreamError) | One(record: Record, rest: Bytes)

  function NextRecord(input: Bytes): (next: Next)
    ensures next.One? ==> |next.rest| < |input|
  {
    if input == [] then End
    else if |input| < HEADER_BYTES then Bad(ClosedInHeader)
    else
      match DecodeHeader(input[..HEADER_BYTES])
      case Err(e) => Bad(Malformed(e))
      case Ok(h) =>
        var body := HEADER_BYTES + h.nameSize;
        if |input| < body then Bad(ClosedEarly)
        else if h.kind == KIND_DIRECTORY_TAR then Bad(UnsupportedKind)
        else if |input| < body + BodySize(h) then Bad(ClosedEarly)
        else
          One(Record(h.kind, input[HEADER_BYTES..body], h.offset, h.totalSize, input[body..body + BodySize(h)]),
              input[body + BodySize(h)..])
  }

  function ParseStream(input: Bytes): (seq<Record>, Ending) {
    match NextRecord(input)
    case End => ([], CleanEnd)
    case Bad(e) => ([], Broken(e))
    case One(r, rest) =>
      var (rs, ending) := ParseStream(rest);
      ([r] + rs, ending)
  }

  lemma {:induction false} NextOfEncoded(r: Record, rest: Bytes)
    requires ValidRecord(r)
    ensures NextRecord(EncodeRecord(r) + rest) == One(r, rest)
  {
    var input := EncodeRecord(r) + rest;
    var h := HeaderOf(r);
    var body := HEADER_BYTES + |r.name|;
    HeaderRoundTrip(h);
    assert input[..HEADER_BYTES] == EncodeHeader(h);
    assert input[HEADER_BYTES..body] == r.name;
    assert input[body..body + |r.payload|] == r.payload;
    assert input[body + |r.payload|..] == rest;
  }

  lemma {:induction false} NextOfCut(r: Record, n: nat)
    requires ValidRecord(r) && 0 < n < |EncodeRecord(r)|
    ensures NextRecord(EncodeRecord(r)[..n]) == Bad(if n < HEADER_BYTES then ClosedInHeader else ClosedEarly)
  {
    var input := EncodeRecord(r)[..n];
    if n >= HEADER_BYTES {
      HeaderRoundTrip(HeaderOf(r));
      assert input[..HEADER_BYTES] == EncodeHeader(HeaderOf(r));
    }
  }

  lemma {:induction false} ParseOne(input: Bytes, r: Record, rest: Bytes)
    requires NextRecord(input) == One(r, rest)
    ensures ParseStream(input) == ([r] + ParseStream(rest).0, ParseStream(rest).1)
  {
  }

  /** Round trip: parsing what was sent yields exactly the records sent, then a clean end. */
  lemma {:induction false} StreamRoundTrip(rs: seq<Record>)
    requires ValidRecords(rs)
    ensures ParseStream(EncodeAll(rs)) == (rs, CleanEnd)
  {
    if rs != [] {
      var rest := EncodeAll(rs[1..]);
      EncodeAllFirst(rs);
      NextOfEncoded(rs[0], rest);
      StreamRoundTrip(rs[1..]);
      ParseOne(EncodeAll(rs), rs[0], rest);
      assert rs == [rs[0]] + rs[1..];
    }
  }

  // ----- Exactly which streams are read without an error -----

  /** A header that makes the receiver read record `r`: it fixes all but the payload size of a
      directory entry, which is ignored. */
  ghost predicate Announces(h: Header, r: Record) {
    && AcceptableHeader(h) && h.kind != KIND_DIRECTORY_TAR
    && h.kind == r.kind && h.offset == r.offset && h.totalSize == r.totalSize
    && h.nameSize == |r.name| && BodySize(h) == |r.payload|
  }

  ghost predicate AllAnnounced(heads: seq<Header>, rs: seq<Record>) {
    |heads| == |rs| && forall i | 0 <= i < |rs| :: Announces(heads[i], rs[i])
  }

  function Message(h: Header, r: Record): Bytes {
    EncodeHeader(h) + r.name + r.payload
  }

  function Messages(heads: seq<Header>, rs: seq<Record>): Bytes
    requires |heads| == |rs|
  {
    if rs == [] then [] else Message(heads[0], rs[0]) + Messages(heads[1..], rs[1..])
  }

  lemma {:induction false} NextOfMessage(h: Header, r: Record, rest: Bytes)
    requires Announces(h, r)
    ensures NextRecord(Message(h, r) + rest) == One(r, rest)
  {
    var input := Message(h, r) + rest;
    var body := HEADER_BYTES + |r.name|;
    HeaderRoundTrip(h);
    hide EncodeHeader, DecodeHeader;
    assert input[..HEADER_BYTES] == EncodeHeader(h);
    assert input[HEADER_BYTES..body] == r.name;
    assert input[body..body + |r.payload|] == r.payload;
    assert input[body + |r.payload|..] == rest;
  }

  lemma {:induction false} NextIsMessage(input: Bytes, r: Record, rest: Bytes) returns (h: Header)
    requires NextRecord(input) == One(r, rest)
    ensures Announces(h, r) && input == Message(h, r) + rest
  {
    hide EncodeHeader, DecodeHeader;
    var front := input[..HEADER_BYTES];
    h := DecodeHeader(front).value;
    AcceptedHeader(front);
    DecodedHeaderIsCanonical(front);
    assert input == front + r.name + r.payload + rest;
  }

  lemma {:induction false} AcceptedHeader(header: Bytes)
    requires |header| == HEADER_BYTES && DecodeHeader(header).Ok?
    ensures AcceptableHeader(DecodeHeader(header).value)
  {
    hide DecodeU64;
  }

  lemma {:induction false} ParseMessages(heads: seq<Header>, rs: seq<Record>)
    requires AllAnnounced(heads, rs)
    ensures ParseStream(Messages(heads, rs)) == (rs, CleanEnd)
  {
    if rs != [] {
      var rest := Messages(heads[1..], rs[1..]);
      ParseMessages(heads[1..], rs[1..]);
      NextOfMessage(heads[0], rs[0], rest);
      hide Message, ParseStream;
      ParseOne(Messages(heads, rs), rs[0], rest);
      assert rs == [rs[0]] + rs[1..];
    }
  }

  lemma {:induction false} ParsedMessages(input: Bytes, rs: seq<Record>) returns (heads: seq<Header>)
    requires ParseStream(input) == (rs, CleanEnd)
    ensures AllAnnounced(heads, rs) && input == Messages(heads, rs)
    decreases |input|
  {
    match NextRecord(input) {
      case End =>
        heads := [];
      case One(r, rest) =>
        var h := NextIsMessage(input, r, rest);
        hide Announces, Message;
        var tail := ParsedMessages(rest, ParseStream(rest).0);
        heads := [h] + tail;
        assert rs == [r] + ParseStream(rest).0 && heads[1..] == tail && rs[1..] == ParseStream(rest).0;
    }
  }

  /** Exactly the concatenations of announced records are read to a clean end, as these records. */
  lemma {:induction false} ParseStreamExact(input: Bytes, rs: seq<Record>)
    ensures ParseStream(input) == (rs, CleanEnd) <==>
            exists heads :: AllAnnounced(heads, rs) && input == Messages(heads, rs)
  {
    hide ParseStream, Messages, Announces;
    if ParseStream(input) == (rs, CleanEnd) {
      var heads := ParsedMessages(input, rs);
    }
    forall heads | AllAnnounced(heads, rs) && input == Messages(heads, rs)
      ensures ParseStream(input) == (rs, CleanEnd)
    {
      ParseMessages(heads, rs);
    }
  }

  /** What the receiver reports for a stream that was cut after `n` bytes: exactly the whole
      records before the cut, and a clean end if and only if the cut is on a record boundary. */
  ghost predicate CutAfter(rs: seq<Record>, n: nat, k: nat, result: (seq<Record>, Ending))
    requires ValidRecords(rs)
  {
    && k <= |rs|
    && result.0 == rs[..k]
    && |EncodeAll(rs[..k])| <= n
    && (k < |rs| ==> n < |EncodeAll(rs[..k + 1])|)
    && (result.1 == CleanEnd <==> n == |EncodeAll(rs[..k])|)
    && result.1 in {CleanEnd, Broken(ClosedInHeader), Broken(ClosedEarly)}
  }

  lemma {:induction false} CutInFirst(rs: seq<Record>, n: nat)
    requires ValidRecords(rs) && rs != [] && n < |EncodeRecord(rs[0])|
    ensures n <= |EncodeAll(rs)| && CutAfter(rs, n, 0, ParseStream(EncodeAll(rs)[..n]))
  {
    EncodeAllFirst(rs);
    EncodeAllFirst(rs[..1]);
    if n > 0 {
      assert EncodeAll(rs)[..n] == EncodeRecord(rs[0])[..n];
      NextOfCut(rs[0], n);
    }
  }

  lemma {:induction false} CutAfterFirst(rs: seq<Record>, n: nat, k: nat, result: (seq<Record>, Ending))
    requires ValidRecords(rs) && rs != []
    requires CutAfter(rs[1..], n, k, result)
    ensures CutAfter(rs, |EncodeRecord(rs[0])| + n, k + 1, ([rs[0]] + result.0, result.1))
  {
    assert rs[..k + 1] == [rs[0]] + rs[1..][..k];
    assert rs[..k + 1][1..] == rs[1..][..k];
    EncodeAllFirst(rs[..k + 1]);
    if k + 1 < |rs| {
      assert rs[..k + 2][1..] == rs[1..][..k + 1];
      EncodeAllFirst(rs[..k + 2]);
    }
  }

  /** Truncation soundness, whatever the point `n` where the stream is cut. */
  lemma {:induction false} TruncationSoundness(rs: seq<Record>, n: nat) returns (k: nat)
    requires ValidRecords(rs) && n <= |EncodeAll(rs)|
    ensures CutAfter(rs, n, k, ParseStream(EncodeAll(rs)[..n]))
  {
    if rs == [] {
      return 0;
    }
    var first := EncodeRecord(rs[0]);
    EncodeAllFirst(rs);
    if n < |first| {
      CutInFirst(rs, n);
      return 0;
    }
    k := TruncationSoundness(rs[1..], n - |first|);
    var rest := EncodeAll(rs[1..])[..n - |first|];
    assert EncodeAll(rs)[..n] == first + rest;
    NextOfEncoded(rs[0], rest);
    ParseOne(first + rest, rs[0], rest);
    CutAfterFirst(rs, n - |first|, k, ParseStream(rest));
    return k + 1;
  }

  // ----- The receive loops -----

  /** Fills `length` bytes of the buffer, or reports that the connection closed first. */
  method ReceiveExact(session: TcpTransport, length: nat) returns (bytes: Option<Bytes>)
    modifies session`input
    ensures bytes.Some? <==> |old(session.input)| >= length
    ensures bytes.Some? ==> bytes.value == old(session.input)[..length]
                            && session.input == old(session.input)[length..]
  {
    var buffer := new Byte[length];
    var offset := 0;
    while offset < buffer.Length
      invariant offset <= buffer.Length
      invariant buffer[..offset] + session.input == old(session.input)
    {
      ghost var before := buffer[..offset];
      var received := session.ReceiveInto(buffer, offset, buffer.Length - offset);
      if received == 0 {
        assert |before| < length;
        return None;
      }
      assert buffer[..offset + received] == before + buffer[offset..offset + received];
      offset := offset + received;
    }
    assert buffer[..] == buffer[..offset];
    return Some(buffer[..]);
  }

  datatype HeaderResult = NoMore | Failed(error: StreamError) | Received(incoming: Incoming)

  /** The reference for the next header and name on the stream. */
  function NextIncoming(input: Bytes): HeaderResult {
    if input == [] then NoMore
    else if |input| < HEADER_BYTES then Failed(ClosedInHeader)
    else
      match DecodeHeader(input[..HEADER_BYTES])
      case Err(e) => Failed(Malformed(e))
      case Ok(h) =>
        if |input| < HEADER_BYTES + h.nameSize then Failed(ClosedEarly)
        else Received(Incoming(h, input[HEADER_BYTES..HEADER_BYTES + h.nameSize]))
  }

  /** The loop that fills the header; a short count means the connection ended. */
  method ReceiveHeaderBytes(session: TcpTransport) returns (offset: nat, header: Bytes)
    modifies session`input
    ensures offset == Min(HEADER_BYTES, |old(session.input)|)
    ensures offset == HEADER_BYTES ==> header == old(session.input)[..HEADER_BYTES]
                                       && session.input == old(session.input)[HEADER_BYTES..]
  {
    var buffer := new Byte[HEADER_BYTES];
    offset := 0;
    while offset < buffer.Length
      invariant offset <= buffer.Length
      invariant buffer[..offset] + session.input == old(session.input)
    {
      ghost var before := buffer[..offset];
      var received := session.ReceiveInto(buffer, offset, buffer.Length - offset);
      if received == 0 {
        assert |before| == offset;
        return offset, [];
      }
      assert buffer[..offset + received] == before + buffer[offset..offset + received];
      offset := offset + received;
    }
    assert buffer[..] == buffer[..offset];
    return offset, buffer[..];
  }

  /** The end of the stream is clean only before the first byte of a header. */
  method ReceiveHeaderOptional(session: TcpTransport) returns (result: HeaderResult)
    modifies session`input
    ensures result == NextIncoming(old(session.input))
    ensures result.Received? ==>
              old(session.input)[HEADER_BYTES + |result.incoming.name|..] == session.input
  {
    ghost var input := session.input;
    var offset, header := ReceiveHeaderBytes(session);
    if offset < HEADER_BYTES {
      return if offset == 0 then NoMore else Failed(ClosedInHeader);
    }
    var decoded := ReadHeader(header);
    if decoded.Err? {
      return Failed(Malformed(decoded.error));
    }
    var h := decoded.value;
    var name := ReceiveExact(session, h.nameSize);
    if name == None {
      return Failed(ClosedEarly);
    }
    SliceOfRest(input, HEADER_BYTES, h.nameSize);
    return Received(Incoming(h, name.value));
  }

  lemma {:induction false} SliceOfRest(s: Bytes, m: nat, n: nat)
    requires m + n <= |s|
    ensures s[m..][..n] == s[m..m + n]
    ensures s[m..][n..] == s[m + n..]
  {
  }

  /** Checks the magic and decodes the five fields. */
  method ReadHeader(header: Bytes) returns (result: Result<Header, HeaderError>)
    requires |header| == HEADER_BYTES
    ensures result == DecodeHeader(header)
  {
    for index := 0 to |MAGIC|
      invariant forall i | 0 <= i < index :: header[i] == MAGIC[i]
    {
      if header[index] != MAGIC[index] {
        assert header[..8][index] != MAGIC[index];
        return Err(BadMagic);
      }
    }
    assert header[..8] == MAGIC;
    var kind := ReadU64Be(header[8..16]);
    var payloadSize := ReadU64Be(header[16..24]);
    var nameSize := ReadU64Be(header[24..32]);
    var offset := ReadU64Be(header[32..40]);
    var totalSize := ReadU64Be(header[40..48]);
    if nameSize == 0 || nameSize > MAX_NAME_BYTES {
      return Err(BadNameLength);
    }
    if !ValidKind(kind) {
      return Err(BadKind);
    }
    return Ok(Header(kind, payloadSize, nameSize, offset, totalSize));
  }

  /** The payload loop: reads at most one buffer at a time until `size` bytes have arrived. */
  method ReceivePayload(session: TcpTransport, size: nat) returns (ok: bool, payload: Bytes)
    modifies session`input
    ensures ok <==> |old(session.input)| >= size
    ensures ok ==> payload == old(session.input)[..size] && session.input == old(session.input)[size..]
  {
    var buffer := new Byte[CHUNK_BYTES];
    payload := [];
    while |payload| < size
      invariant |payload| <= size
      invariant payload + session.input == old(session.input)
    {
      var want := Min(size - |payload|, buffer.Length);
      var received := session.ReceiveInto(buffer, 0, want);
      if received == 0 {
        return false, payload;
      }
      payload := payload + buffer[0..received];
    }
    return true, payload;
  }

  /** The next record, told from the next header and name. */
  lemma {:induction false} NextFromIncoming(input: Bytes)
    ensures match NextIncoming(input)
            case NoMore => NextRecord(input) == End
            case Failed(e) => NextRecord(input) == Bad(e)
            case Received(incoming) =>
              var h, body := incoming.header, HEADER_BYTES + |incoming.name|;
              body <= |input| &&
              NextRecord(input) ==
              if h.kind == KIND_DIRECTORY_TAR then Bad(UnsupportedKind)
              else if |input[body..]| < BodySize(h) then Bad(ClosedEarly)
              else One(Record(h.kind, incoming.name, h.offset, h.totalSize, input[body..][..BodySize(h)]),
                       input[body..][BodySize(h)..])
  {
    var incoming := NextIncoming(input);
    if incoming.Received? {
      var h, body := incoming.incoming.header, HEADER_BYTES + |incoming.incoming.name|;
      if |input| >= body + BodySize(h) {
        SliceOfRest(input, body, BodySize(h));
      }
    }
  }

  /** The receive loop of one stream, keeping the records it completes. For every way the reads
      may split the stream, the result is that of the reference parser. */
  method ReceiveRecords(session: TcpTransport) returns (records: seq<Record>, ending: Ending)
    modifies session`input
    ensures (records, ending) == ParseStream(old(session.input))
  {
    records := [];
    while true
      invariant ParseStream(old(session.input)).0 == records + ParseStream(session.input).0
      invariant ParseStream(old(session.input)).1 == ParseStream(session.input).1
      decreases |session.input|
    {
      ghost var input := session.input;
      NextFromIncoming(input);
      assert records + [] == records;
      var result := ReceiveHeaderOptional(session);
      match result {
        case NoMore =>
          return records, CleanEnd;
        case Failed(e) =>
          return records, Broken(e);
        case Received(incoming) =>
          if incoming.header.kind == KIND_DIRECTORY_TAR {
            return records, Broken(UnsupportedKind);
          }
          var h := incoming.header;
          var ok, payload := ReceivePayload(session, BodySize(h));
          if !ok {
            return records, Broken(ClosedEarly);
          }
          var record := Record(h.kind, incoming.name, h.offset, h.totalSize, payload);
          ParseOne(input, record, session.input);
          ghost var rest := ParseStream(session.input).0;
          assert records + ([record] + rest) == records + [record] + rest;
          records := records + [record];
      }
    }
  }
}
