/** What every schedule keeps on each single stream: the receiver is always at the point of the
    record sequence that the bytes it has received say. Each record travels with its encoding,
    its message. */
module StreamInvariant {
  import opened Basics
  import opened Wire
  import opened Framing
  import opened Receiver
  import opened Streams

  /** Where message `k` starts in the byte stream. */
  function Offset(messages: seq<Bytes>, k: nat): nat
    requires k <= |messages|
  {
    if k == 0 then 0 else Offset(messages, k - 1) + |messages[k - 1]|
  }

  lemma {:induction false} OffsetMonotone(messages: seq<Bytes>, j: nat, k: nat)
    requires j <= k <= |messages|
    ensures Offset(messages, j) <= Offset(messages, k)
  {
    if j < k {
      OffsetMonotone(messages, j, k - 1);
    }
  }

  lemma {:induction false} OffsetIsLength(messages: seq<Bytes>, k: nat)
    requires k <= |messages|
    ensures Offset(messages, k) == |Flatten(messages[..k])|
  {
    if k > 0 {
      OffsetIsLength(messages, k - 1);
      FlattenAt(messages, k - 1);
    }
  }

  /** Message `k` lies in the byte stream at its offset. */
  lemma {:induction false} MessageInStream(messages: seq<Bytes>, k: nat)
    requires k < |messages|
    ensures Offset(messages, |messages|) == |Flatten(messages)|
    ensures Offset(messages, k) + |messages[k]| <= |Flatten(messages)|
    ensures Flatten(messages)[Offset(messages, k)..Offset(messages, k) + |messages[k]|] == messages[k]
  {
    hide Offset, Flatten;
    OffsetIsLength(messages, k);
    OffsetIsLength(messages, |messages|);
    assert messages[..|messages|] == messages;
    FlattenAt(messages, k);
  }

  /** A payload that is written to a file, not a link target. */
  predicate FilePayload(kind: U64) {
    kind == KIND_DIRECTORY_FILE || IsPart(kind)
  }

  ghost function IncomingOf(r: Record): Incoming
    requires ValidRecord(r)
  {
    Incoming(HeaderOf(r), r.name)
  }

  /** The thread is `into` bytes into record `r`, whose encoding is `message`. */
  ghost predicate Inside(r: Record, message: Bytes, into: nat, pc: Pc)
    requires ValidRecord(r)
  {
    var body := HEADER_BYTES + |r.name|;
    && |message| == body + |r.payload|
    && match pc
       case AtHeader(buf) => into == |buf| < HEADER_BYTES && buf == message[..into]
       case AtName(h, buf) =>
         h == HeaderOf(r) && into == HEADER_BYTES + |buf| && |buf| < |r.name| && buf == r.name[..|buf|]
       case Dispatch(incoming) => incoming == IncomingOf(r) && into == body
       case Open(incoming) => incoming == IncomingOf(r) && into == body && FilePayload(r.kind)
       case AtTarget(incoming, buf) =>
         && incoming == IncomingOf(r) && r.kind == KIND_DIRECTORY_SYMLINK
         && into == body + |buf| && |buf| < |r.payload| && buf == r.payload[..|buf|]
       case Link(incoming, target) =>
         && incoming == IncomingOf(r) && r.kind == KIND_DIRECTORY_SYMLINK
         && into == body + |target| && target == r.payload
       case AtBody(incoming, got) =>
         incoming == IncomingOf(r) && FilePayload(r.kind) && into == body + got && got < |r.payload|
       case Write(incoming, got, chunk) =>
         && incoming == IncomingOf(r) && FilePayload(r.kind)
         && into == body + got + |chunk| && got + |chunk| <= |r.payload| && chunk != []
         && chunk == r.payload[got..got + |chunk|]
       case SetMode(incoming) =>
         incoming == IncomingOf(r) && r.kind == KIND_DIRECTORY_FILE && into == body + |r.payload|
       case _ => false
  }

  ghost predicate Sized(rs: seq<Record>, messages: seq<Bytes>) {
    && |messages| == |rs|
    && forall k | 0 <= k < |rs| :: |messages[k]| == HEADER_BYTES + |rs[k].name| + |rs[k].payload|
  }

  /** The thread has completed `c` records and is `into` bytes past them; `drained` says that its
      connection is closed and everything sent has been received. */
  ghost predicate AtPoint(rs: seq<Record>, messages: seq<Bytes>, c: nat, into: nat, drained: bool, pc: Pc)
    requires ValidRecords(rs) && Sized(rs, messages) && c <= |rs|
  {
    match pc
    case Finished => into == 0 && drained
    case Stopped(Protocol(e)) =>
      && c < |rs| && drained && 0 < into < |messages[c]|
      && e == if into < HEADER_BYTES then ClosedInHeader else ClosedEarly
    case Stopped(_) => c < |rs|
    case _ => if c < |rs| then Inside(rs[c], messages[c], into, pc) else into == 0 && pc == AtHeader([])
  }

  ghost predicate ConnectionInv(rs: seq<Record>, messages: seq<Bytes>, st: Connection)
    requires ValidRecords(rs) && Sized(rs, messages)
  {
    && st.completed <= |rs|
    && Offset(messages, st.completed) <= st.received <= st.sent <= Offset(messages, |rs|)
    && AtPoint(rs, messages, st.completed, st.received - Offset(messages, st.completed),
               st.closed && st.received == st.sent, st.pc)
  }

  lemma {:induction false} MessageSize(r: Record)
    requires ValidRecord(r)
    ensures |EncodeRecord(r)| == HEADER_BYTES + |r.name| + |r.payload|
  {
  }

  lemma {:induction false} NameWindow(r: Record, i: nat, n: nat)
    requires ValidRecord(r) && i + n <= |r.name|
    ensures HEADER_BYTES + i + n <= |EncodeRecord(r)|
    ensures EncodeRecord(r)[HEADER_BYTES + i..HEADER_BYTES + i + n] == r.name[i..i + n]
  {
    hide EncodeHeader, HeaderOf;
    Middle(EncodeHeader(HeaderOf(r)), r.name, r.payload, i, n);
  }

  lemma {:induction false} PayloadWindow(r: Record, i: nat, n: nat)
    requires ValidRecord(r) && i + n <= |r.payload|
    ensures var at := HEADER_BYTES + |r.name| + i;
            at + n <= |EncodeRecord(r)| && EncodeRecord(r)[at..at + n] == r.payload[i..i + n]
  {
    hide EncodeHeader, HeaderOf;
    Middle(EncodeHeader(HeaderOf(r)) + r.name, r.payload, [], i, n);
    assert EncodeHeader(HeaderOf(r)) + r.name + r.payload + [] == EncodeHeader(HeaderOf(r)) + r.name + r.payload;
  }

  lemma {:induction false} Middle(x: Bytes, y: Bytes, z: Bytes, i: nat, n: nat)
    requires i + n <= |y|
    ensures (x + y + z)[|x| + i..|x| + i + n] == y[i..i + n]
  {
    var whole, part := (x + y + z)[|x| + i..|x| + i + n], y[i..i + n];
    forall k | 0 <= k < n
      ensures whole[k] == part[k]
    {
      assert whole[k] == (x + y + z)[|x| + i + k];
    }
  }

  lemma {:induction false} HeaderOfMessage(r: Record)
    requires ValidRecord(r)
    ensures |EncodeRecord(r)| >= HEADER_BYTES
    ensures DecodeHeader(EncodeRecord(r)[..HEADER_BYTES]) == Ok(HeaderOf(r))
  {
    assert EncodeRecord(r)[..HEADER_BYTES] == EncodeHeader(HeaderOf(r));
    HeaderRoundTrip(HeaderOf(r));
  }

  lemma {:induction false} LongerPrefix(s: Bytes, m: nat, n: nat)
    requires m + n <= |s|
    ensures s[..m] + s[m..m + n] == s[..m + n]
    ensures m + n == |s| ==> s[..m + n] == s
  {
  }

  lemma {:induction false} ReceiveInHeader(r: Record, into: nat, pc: Pc, n: nat)
    requires ValidRecord(r) && pc.AtHeader? && Inside(r, EncodeRecord(r), into, pc)
    requires 0 < n <= Want(pc)
    ensures into + n <= |EncodeRecord(r)|
    ensures Inside(r, EncodeRecord(r), into + n, OnReceive(pc, EncodeRecord(r)[into..into + n]))
  {
    hide EncodeRecord, DecodeHeader;
    LongerPrefix(EncodeRecord(r), into, n);
    HeaderOfMessage(r);
    assert r.name[..0] == [];
  }

  lemma {:induction false} ReceiveInPayload(r: Record, into: nat, pc: Pc, n: nat)
    requires ValidRecord(r) && (pc.AtTarget? || pc.AtBody?) && Inside(r, EncodeRecord(r), into, pc)
    requires 0 < n <= Want(pc)
    ensures into + n <= |EncodeRecord(r)|
    ensures Inside(r, EncodeRecord(r), into + n, OnReceive(pc, EncodeRecord(r)[into..into + n]))
  {
    hide EncodeRecord, DecodeHeader;
    MessageSize(r);
    var got := if pc.AtBody? then pc.got else |pc.buf|;
    PayloadWindow(r, got, n);
    LongerPrefix(r.payload, got, n);
  }

  /** A read inside a record moves the thread to the next point of the same record. */
  lemma {:induction false} ReceiveInside(r: Record, into: nat, pc: Pc, n: nat)
    requires ValidRecord(r) && Inside(r, EncodeRecord(r), into, pc)
    requires 0 < n <= Want(pc)
    ensures into + n <= |EncodeRecord(r)|
    ensures Inside(r, EncodeRecord(r), into + n, OnReceive(pc, EncodeRecord(r)[into..into + n]))
  {
    hide EncodeRecord, DecodeHeader;
    if pc.AtHeader? {
      ReceiveInHeader(r, into, pc, n);
    } else if pc.AtName? {
      MessageSize(r);
      NameWindow(r, |pc.buf|, n);
      LongerPrefix(r.name, |pc.buf|, n);
    } else {
      ReceiveInPayload(r, into, pc, n);
    }
  }

  /** An action inside a record stays at its point, or completes the record at its last byte. */
  lemma {:induction false} ActInside(r: Record, message: Bytes, into: nat, pc: Pc)
    requires ValidRecord(r) && Inside(r, message, into, pc) && Acting(pc)
    ensures if NextPc(pc).AtHeader? then NextPc(pc) == AtHeader([]) && into == |message|
            else Inside(r, message, into, NextPc(pc))
  {
  }

  lemma {:induction false} EofInside(r: Record, message: Bytes, into: nat, pc: Pc)
    requires ValidRecord(r) && Inside(r, message, into, pc) && Want(pc) > 0
    ensures into < |message|
    ensures pc != AtHeader([]) ==>
              into > 0 && OnEof(pc) == Stopped(Protocol(if into < HEADER_BYTES then ClosedInHeader else ClosedEarly))
    ensures pc == AtHeader([]) ==> into == 0
  {
  }

  lemma {:induction false} ReceiveOnWire(wire: Bytes, start: nat, r: Record, received: nat, pc: Pc, n: nat)
    requires ValidRecord(r) && start <= received
    requires Inside(r, EncodeRecord(r), received - start, pc) && 0 < n <= Want(pc)
    requires start + |EncodeRecord(r)| <= |wire| && wire[start..start + |EncodeRecord(r)|] == EncodeRecord(r)
    ensures received + n <= |wire|
    ensures Inside(r, EncodeRecord(r), received + n - start, OnReceive(pc, wire[received..received + n]))
  {
    hide Inside, EncodeRecord, OnReceive;
    ReceiveInside(r, received - start, pc, n);
    Window(wire, start, start + |EncodeRecord(r)|, received - start, n);
  }

  lemma {:induction false} Window(s: Bytes, start: nat, end: nat, into: nat, n: nat)
    requires start + into + n <= end <= |s|
    ensures s[start + into..start + into + n] == s[start..end][into..into + n]
  {
    var whole, part := s[start + into..start + into + n], s[start..end][into..into + n];
    forall i | 0 <= i < n
      ensures whole[i] == part[i]
    {
      assert whole[i] == s[start + into + i];
    }
  }

  /** A thread that moves on inside its record keeps the invariant. */
  lemma {:induction false} MoveInside(rs: seq<Record>, messages: seq<Bytes>, st: Connection, n: nat, pc: Pc)
    requires ValidRecords(rs) && Sized(rs, messages) && ConnectionInv(rs, messages, st) && st.completed < |rs|
    requires Inside(rs[st.completed], messages[st.completed], st.received + n - Offset(messages, st.completed), pc)
    requires st.received + n <= st.sent
    ensures ConnectionInv(rs, messages, st.(received := st.received + n, pc := pc))
  {
    assert !pc.Stopped? && !pc.Finished?;
    assert AtPoint(rs, messages, st.completed, st.received + n - Offset(messages, st.completed),
                   st.closed && st.received + n == st.sent, pc);
  }

  lemma {:induction false} FinishRecord(rs: seq<Record>, messages: seq<Bytes>, st: Connection, bytes: U64)
    requires ValidRecords(rs) && Sized(rs, messages) && ConnectionInv(rs, messages, st) && st.completed < |rs|
    requires st.received == Offset(messages, st.completed) + |messages[st.completed]|
    ensures ConnectionInv(rs, messages, st.(pc := AtHeader([]), completed := st.completed + 1, bytes := bytes))
  {
  }

  lemma {:induction false} ReceiveStep(wire: Bytes, rs: seq<Record>, messages: seq<Bytes>, st: Connection, s: nat,
                                       n: nat)
    requires ValidRecords(rs) && Sized(rs, messages) && ConnectionInv(rs, messages, st)
    requires wire == Flatten(messages)
    requires st.completed < |rs| ==> messages[st.completed] == EncodeRecord(rs[st.completed])
    requires 0 < n <= Want(st.pc) && st.received + n <= st.sent
    ensures st.received + n <= |wire|
    ensures ConnectionInv(rs, messages, StepStream(wire, st, Receive(s, n), None))
  {
    hide Inside, EncodeRecord, OnReceive;
    var c := st.completed;
    MessageInStream(messages, c);
    ReceiveOnWire(wire, Offset(messages, c), rs[c], st.received, st.pc, n);
    MoveInside(rs, messages, st, n, OnReceive(st.pc, wire[st.received..st.received + n]));
  }

  lemma {:induction false} ActStep(wire: Bytes, rs: seq<Record>, messages: seq<Bytes>, st: Connection, s: nat,
                                   thrown: Option<ReceiveError>)
    requires ValidRecords(rs) && Sized(rs, messages) && ConnectionInv(rs, messages, st) && Acting(st.pc)
    requires thrown.Some? ==> !thrown.value.Protocol?
    ensures ConnectionInv(rs, messages, StepStream(wire, st, Act(s), thrown))
  {
    hide Inside, NextPc, Counted;
    var c := st.completed;
    if thrown == None {
      ActInside(rs[c], messages[c], st.received - Offset(messages, c), st.pc);
      var bytes := (st.bytes + Counted(st.pc)) % U64_MODULUS;
      if NextPc(st.pc).AtHeader? {
        FinishRecord(rs, messages, st, bytes);
      } else {
        MoveInside(rs, messages, st.(bytes := bytes), 0, NextPc(st.pc));
      }
    }
  }

  lemma {:induction false} EofStep(wire: Bytes, rs: seq<Record>, messages: seq<Bytes>, st: Connection, s: nat)
    requires ValidRecords(rs) && Sized(rs, messages) && ConnectionInv(rs, messages, st)
    requires Want(st.pc) > 0 && st.closed && st.received == st.sent
    ensures ConnectionInv(rs, messages, StepStream(wire, st, Eof(s), None))
  {
    var c := st.completed;
    if c < |rs| {
      EofInside(rs[c], messages[c], st.received - Offset(messages, c), st.pc);
    }
  }

  lemma {:induction false} SendOrCloseStep(wire: Bytes, rs: seq<Record>, messages: seq<Bytes>, st: Connection, e: Event)
    requires ValidRecords(rs) && Sized(rs, messages) && ConnectionInv(rs, messages, st) && wire == Flatten(messages)
    requires !st.closed && (e.Close? || (e.Send? && st.sent + e.n <= |wire|))
    ensures ConnectionInv(rs, messages, StepStream(wire, st, e, None))
  {
    hide Inside;
    OffsetIsLength(messages, |rs|);
    assert messages[..|rs|] == messages;
  }

  /** Every event keeps the invariant of its stream, unless the files or the shared state made an
      action throw, which stops the thread where it is. */
  lemma {:induction false} ConnectionStep(rs: seq<Record>, messages: seq<Bytes>, st: Connection, e: Event,
                                          thrown: Option<ReceiveError>)
    requires ValidRecords(rs) && messages == EncodeEach(rs) && Sized(rs, messages) && ConnectionInv(rs, messages, st)
    requires e.Send? ==> !st.closed && st.sent + e.n <= |Flatten(messages)|
    requires e.Close? ==> !st.closed
    requires e.Receive? ==> 0 < e.n <= Want(st.pc) && st.received + e.n <= st.sent
    requires e.Eof? ==> Want(st.pc) > 0 && st.closed && st.received == st.sent
    requires e.Act? ==> Acting(st.pc)
    requires thrown.Some? ==> e.Act? && !thrown.value.Protocol?
    ensures e.Receive? ==> st.received + e.n <= |Flatten(messages)|
    ensures ConnectionInv(rs, messages, StepStream(Flatten(messages), st, e, thrown))
  {
    hide ConnectionInv, StepStream;
    var wire := Flatten(messages);
    match e
    case Send(_, _) => SendOrCloseStep(wire, rs, messages, st, e);
    case Close(_) => SendOrCloseStep(wire, rs, messages, st, e);
    case Receive(s, n) => ReceiveStep(wire, rs, messages, st, s, n);
    case Act(s) => ActStep(wire, rs, messages, st, s, thrown);
    case Eof(s) => EofStep(wire, rs, messages, st, s);
  }

  lemma {:induction false} EncodingsSized(rs: seq<Record>)
    requires ValidRecords(rs)
    ensures Sized(rs, EncodeEach(rs))
  {
  }

  /** No pending read asks for zero bytes, so a read of zero bytes always means the end. */
  lemma {:induction false} PendingReads(rs: seq<Record>, messages: seq<Bytes>, st: Connection)
    requires ValidRecords(rs) && Sized(rs, messages) && ConnectionInv(rs, messages, st)
    ensures ReadsSomething(st.pc)
  {
    if st.completed < |rs| && !st.pc.Finished? && !st.pc.Stopped? {
      PendingInside(rs[st.completed], messages[st.completed], st.received - Offset(messages, st.completed), st.pc);
    }
  }

  lemma {:induction false} PendingInside(r: Record, message: Bytes, into: nat, pc: Pc)
    requires ValidRecord(r) && Inside(r, message, into, pc)
    ensures ReadsSomething(pc)
  {
    assert HeaderOf(r).nameSize == |r.name| && HeaderOf(r).payloadSize == |r.payload|;
  }

  lemma {:induction false} StartInv(rs: seq<Record>, messages: seq<Bytes>)
    requires ValidRecords(rs) && Sized(rs, messages)
    ensures ConnectionInv(rs, messages, Connection(0, false, 0, AtHeader([]), 0, 0))
  {
    OffsetMonotone(messages, 0, |rs|);
  }

  /** Truncation, as the running system sees it: a thread ends cleanly only if the stream was cut
      at a record boundary, and then it has completed exactly the records sent; if everything was
      sent, these are all of them. It reports a broken stream only if the cut is inside a record. */
  lemma {:induction false} EndOfStream(rs: seq<Record>, messages: seq<Bytes>, st: Connection)
    requires ValidRecords(rs) && Sized(rs, messages) && ConnectionInv(rs, messages, st)
    ensures st.pc.Finished? ==> st.sent == Offset(messages, st.completed)
    ensures st.pc.Finished? && st.sent == Offset(messages, |rs|) ==> st.completed == |rs|
    ensures st.pc.Stopped? && st.pc.reason.Protocol? ==>
              && st.closed && st.completed < |rs|
              && Offset(messages, st.completed) < st.sent < Offset(messages, st.completed + 1)
  {
    if st.completed < |rs| {
      OffsetMonotone(messages, st.completed + 1, |rs|);
    }
  }
}
