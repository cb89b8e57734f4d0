/** The receiver without parallel streams: one connection, one header, one payload. */
module SingleStream {
  import opened Basics
  import opened Wire
  import opened Transport
  import opened Framing
  import opened Paths
  import opened FileSystem
  import opened FileTransfer
  import ByteRanges

  datatype SingleError =
    | ClosedInHead | BadHeader(error: HeaderError) | BadName | NeedsParallel | CannotOpen | ClosedInPayload
    | LeavesThroughLink  // no error of the program: the system follows a link, and the model ends

  /** How the receiver ends: a saved file, a stream handed to the archive extractor, or an error. */
  datatype Outcome = Saved(path: Path) | Extracted(archive: Bytes) | Refused(error: SingleError)

  datatype Head = Head(header: Header, name: Bytes, rest: Bytes)

  /** receive_header: the header, the name, and what follows them. */
  function NextHead(input: Bytes): Result<Head, SingleError> {
    if |input| < HEADER_BYTES then Err(ClosedInHead)
    else
      match DecodeHeader(input[..HEADER_BYTES])
      case Err(e) => Err(BadHeader(e))
      case Ok(h) =>
        var body := HEADER_BYTES + h.nameSize;
        if |input| < body then Err(ClosedInHead)
        else
          match SafeFileName(input[HEADER_BYTES..body])
          case None => Err(BadName)
          case Some(name) => Ok(Head(h, name, input[body..]))
  }

  method ReceiveHeader(session: TcpTransport) returns (result: Result<Head, SingleError>)
    modifies session`input
    ensures result == NextHead(old(session.input))
    ensures result.Ok? ==> session.input == result.value.rest
  {
    ghost var input := session.input;
    var header := ReceiveExact(session, HEADER_BYTES);
    if header == None {
      return Err(ClosedInHead);
    }
    var decoded := ReadHeader(header.value);
    if decoded.Err? {
      return Err(BadHeader(decoded.error));
    }
    var h := decoded.value;
    var nameBytes := ReceiveExact(session, h.nameSize);
    if nameBytes == None {
      return Err(ClosedInHead);
    }
    SliceOfRest(input, HEADER_BYTES, h.nameSize);
    var name := SafeFileName(nameBytes.value);
    if name == None {
      return Err(BadName);
    }
    return Ok(Head(h, name.value, session.input));
  }

  class OutputDirectory {
    var files: Files

    constructor (files: Files)
      ensures this.files == files
    {
      this.files := files;
    }

    /** receive_payload_to_file: empties the file and appends each buffer as it arrives. */
    method ReceivePayloadToFile(session: TcpTransport, path: Path, size: nat) returns (error: Option<SingleError>)
      requires path != []
      modifies this, session`input
      ensures (error, files) == PayloadToFile(old(files), old(session.input), path, size)
    {
      hide CreateFile, Locate;
      ghost var input := session.input;
      var created := CreateFile(files, path);
      if !created.answer.Done? {
        return Some(if created.answer.Fails? then CannotOpen else LeavesThroughLink);
      }
      CreatedEmpty(files, path);
      files := created.files;
      var place := Locate(path).value;
      ghost var empty := files;
      var buffer := new Byte[CHUNK_BYTES];
      var received := 0;
      while received < size
        invariant received <= size && received <= |input|
        invariant session.input == input[received..]
        invariant place in empty && empty[place].File?
        invariant files == empty[place := File(input[..received], empty[place].mode)]
      {
        var count := session.ReceiveInto(buffer, 0, Min(size - received, buffer.Length));
        if count == 0 {
          assert input[..received] == input;
          return Some(ClosedInPayload);
        }
        var file, chunk := files[place], buffer[0..count];
        MoreOfInput(input, received, chunk, session.input);
        files := files[place := File(file.content + chunk, file.mode)];
        received := received + count;
      }
      return None;
    }

    /** The branch on the kind: a file is saved, a part is refused, anything else is taken to be an
        archive stream. */
    method ReceiveSingle(session: TcpTransport) returns (outcome: Outcome)
      modifies this, session`input
      ensures (outcome, files) == Single(old(files), old(session.input))
    {
      var head := ReceiveHeader(session);
      if head.Err? {
        return Refused(head.error);
      }
      var h := head.value.header;
      if h.kind == KIND_FILE_PART {
        return Refused(NeedsParallel);
      }
      if h.kind == KIND_FILE {
        var path := [head.value.name];
        var error := ReceivePayloadToFile(session, path, h.payloadSize);
        return if error == None then Saved(path) else Refused(error.value);
      }
      return Extracted(session.input);
    }
  }

  lemma {:induction false} CreatedEmpty(files: Files, path: Path)
    requires path != [] && CreateFile(files, path).answer.Done?
    ensures CreateFile(files, path).files[Locate(path).value].content == []
  {
    hide Locate, Reach;
  }

  lemma {:induction false} MoreOfInput(input: Bytes, received: nat, chunk: Bytes, rest: Bytes)
    requires received <= |input| && input[received..] == chunk + rest
    ensures received + |chunk| <= |input|
    ensures input[..received] + chunk == input[..received + |chunk|]
    ensures rest == input[received + |chunk|..]
  {
    var s := input[received..];
    assert chunk == s[..|chunk|] && rest == s[|chunk|..];
  }

  function PayloadToFile(files: Files, input: Bytes, path: Path, size: nat): (Option<SingleError>, Files)
    requires path != []
  {
    var created := CreateFile(files, path);
    match created.answer
    case Fails => (Some(CannotOpen), files)
    case Leaves(_) => (Some(LeavesThroughLink), files)
    case Done =>
      var content, place := input[..Min(size, |input|)], Locate(path).value;
      (if |input| < size then Some(ClosedInPayload) else None,
       created.files[place := File(content, created.files[place].mode)])
  }

  function Single(files: Files, input: Bytes): (Outcome, Files) {
    match NextHead(input)
    case Err(e) => (Refused(e), files)
    case Ok(head) =>
      if head.header.kind == KIND_FILE_PART then (Refused(NeedsParallel), files)
      else if head.header.kind == KIND_FILE then
        var path := [head.name];
        var (error, files') := PayloadToFile(files, head.rest, path, head.header.payloadSize);
        (if error == None then Saved(path) else Refused(error.value), files')
      else (Extracted(head.rest), files)
  }

  /** What follows an accepted header and name, by the kind it announces: a file is written under the
      last component of the name, a part is refused and touches nothing, and everything behind the name
      of any other kind is handed to the extractor, and no file is touched. */
  lemma {:induction false} SingleByKind(files: Files, h: Header, name: Bytes, safe: Bytes, rest: Bytes)
    requires AcceptableHeader(h) && |name| == h.nameSize && SafeFileName(name) == Some(safe)
    ensures var single := Single(files, EncodeHeader(h) + name + rest);
            && (h.kind == KIND_FILE ==>
                  && single.1 == PayloadToFile(files, rest, [safe], h.payloadSize).1
                  && (single.0 == Saved([safe]) <==> PayloadToFile(files, rest, [safe], h.payloadSize).0 == None))
            && (h.kind == KIND_FILE_PART ==> single == (Refused(NeedsParallel), files))
            && (h.kind in {KIND_DIRECTORY_TAR, KIND_DIRECTORY_ENTRY, KIND_DIRECTORY_FILE, KIND_DIRECTORY_SYMLINK} ==>
                  single == (Extracted(rest), files))
  {
    HeaderRoundTrip(h);
    ThreeParts(EncodeHeader(h), name, rest, |EncodeHeader(h) + name + rest|);
    hide EncodeHeader, DecodeHeader, SafeFileName, PayloadToFile;
    var input := EncodeHeader(h) + name + rest;
    assert input[..|input|] == input && rest[..|rest|] == rest;
  }

  /** A header that is not acceptable, or a name that names nothing, is refused, and nothing is touched. */
  lemma {:induction false} SingleRefusesHead(files: Files, h: Header, name: Bytes, rest: Bytes)
    ensures |name| == h.nameSize && AcceptableHeader(h) && SafeFileName(name) == None ==>
              Single(files, EncodeHeader(h) + name + rest) == (Refused(BadName), files)
    ensures !AcceptableHeader(h) ==>
              var single := Single(files, EncodeHeader(h) + rest);
              single.0.Refused? && single.0.error.BadHeader? && single.1 == files
  {
    HeaderRoundTrip(h);
    ThreeParts(EncodeHeader(h), name, rest, |EncodeHeader(h) + name + rest|);
    ThreeParts(EncodeHeader(h), rest, [], |EncodeHeader(h) + rest + []|);
    hide EncodeHeader, DecodeHeader, SafeFileName, PayloadToFile;
    var input := EncodeHeader(h) + name + rest;
    assert input[..|input|] == input && EncodeHeader(h) + rest + [] == EncodeHeader(h) + rest;
  }

  /** A receiver that was started for one stream refuses every part of a file sent over several, as soon
      as its header and name have arrived and whatever follows, and touches nothing. */
  lemma {:induction false} PartNeedsParallel(job: Job, s: nat, before: Files, input: Bytes)
    requires ValidJob(job) && job.parallel > 1 && s < job.parallel
    requires EncodeHeader(HeaderOf(PartRecord(job, s))) + job.name <= input
    ensures Single(before, input) == (Refused(NeedsParallel), before)
  {
    var h := HeaderOf(PartRecord(job, s));
    var head := EncodeHeader(h) + job.name;
    hide EncodeHeader, Single, SafeFileName;
    assert input == head + input[|head|..];
    SingleByKind(before, h, job.name, job.name, input[|head|..]);
  }

  lemma {:induction false} CutRecord(r: Record, n: nat)
    requires ValidRecord(r) && n <= |EncodeRecord(r)|
    requires SafeFileName(r.name) == Some(r.name)
    ensures NextHead(EncodeRecord(r)[..n]) ==
            if n < HEADER_BYTES + |r.name| then Err(ClosedInHead)
            else Ok(Head(HeaderOf(r), r.name, r.payload[..n - HEADER_BYTES - |r.name|]))
  {
    var input, h := EncodeRecord(r)[..n], HeaderOf(r);
    HeaderRoundTrip(h);
    ThreeParts(EncodeHeader(h), r.name, r.payload, n);
    hide EncodeHeader, DecodeHeader, SafeFileName;
    assert EncodeRecord(r) == EncodeHeader(h) + r.name + r.payload;
  }

  lemma {:induction false} ThreeParts(a: Bytes, b: Bytes, c: Bytes, n: nat)
    requires n <= |a + b + c|
    ensures var s := (a + b + c)[..n];
            && (n >= |a| ==> s[..|a|] == a)
            && (n >= |a| + |b| ==> s[|a|..|a| + |b|] == b && s[|a| + |b|..] == c[..n - |a| - |b|])
  {
  }

  /** What one stream delivers, cut after any number of bytes: the file is saved if and only if the
      whole record arrived, and then it is the source; otherwise there is an error, and the file, if
      it was opened, holds what arrived of the source. Nothing else changes. */
  lemma {:induction false} SingleStreamIsSound(job: Job, before: Files, n: nat)
    requires ValidJob(job) && job.parallel == 1
    requires OutputFile(job) in before ==> before[OutputFile(job)].File?
    requires n <= |EncodeRecord(PartRecord(job, 0))|
    ensures var (outcome, files) := Single(before, EncodeRecord(PartRecord(job, 0))[..n]);
            && (outcome == Saved(OutputFile(job)) <==> n == |EncodeRecord(PartRecord(job, 0))|)
            && (outcome == Saved(OutputFile(job)) ==> Delivered(job, before, files))
            && (outcome != Saved(OutputFile(job)) ==>
                  outcome in {Refused(ClosedInHead), Refused(ClosedInPayload)}
                  && (files == before || Prefixed(job, before, files)))
  {
    hide EncodeHeader, NextHead, PartRecord, PayloadToFile;
    var r := PartRecord(job, 0);
    WholeRange(job);
    CutRecord(r, n);
    var body := HEADER_BYTES + |r.name|;
    if n >= body {
      PayloadOfJob(job, before, n - body);
    }
  }

  lemma {:induction false} PayloadOfJob(job: Job, before: Files, n: nat)
    requires ValidJob(job) && n <= |job.source|
    requires OutputFile(job) in before ==> before[OutputFile(job)].File?
    ensures var (error, files) := PayloadToFile(before, job.source[..n], OutputFile(job), |job.source|);
            && error == (if n < |job.source| then Some(ClosedInPayload) else None)
            && Prefixed(job, before, files)
            && (n == |job.source| ==> Delivered(job, before, files))
  {
    hide Locate, Reach;
    NameStays(job);
    NoLinkToFile(job, before);
    assert job.source[..|job.source|] == job.source;
  }

  /** The output file holds some prefix of the source; everything else is as it was. */
  ghost predicate Prefixed(job: Job, before: Files, files: Files) {
    && OutputFile(job) in files && files[OutputFile(job)].File?
    && files[OutputFile(job)].content <= job.source
    && files - {OutputFile(job)} == before - {OutputFile(job)}
  }

  lemma {:induction false} WholeRange(job: Job)
    requires ValidJob(job) && job.parallel == 1
    ensures PartRecord(job, 0).payload == job.source && PartRecord(job, 0).kind == KIND_FILE
    ensures PartRecord(job, 0).name == job.name
  {
    ByteRanges.RangesTile(|job.source|, 0, 0, 1);
  }
}
