/** What the receiver's check of a range is worth for headers that no sender makes: the sum in it can
    wrap. */
module RangeCheck {
  import opened Basics
  import opened Wire
  import opened Framing
  import opened Paths
  import opened FileSystem
  import opened ByteRanges
  import opened Receiver
  import opened FileTransfer

  /** Writing `chunk` after `got` bytes of the payload leaves the output file at its length. */
  ghost predicate KeepsLength(incoming: Incoming, got: nat, chunk: Bytes, shared: Shared, files: Files) {
    var path, written := OutputPath(incoming, shared), PerformWrite(incoming, got, chunk, shared, files);
    && IsFile(files, path) && written.Some? && IsFile(written.value, path)
    && |written.value[path.value].content| == |files[path.value].content|
  }

  lemma {:induction false} LengthAfterWrite(incoming: Incoming, got: nat, chunk: Bytes, shared: Shared, files: Files)
    requires IsFile(files, OutputPath(incoming, shared)) && IsPart(incoming.header.kind)
    ensures KeepsLength(incoming, got, chunk, shared, files) <==>
            incoming.header.offset + got + |chunk| <= |files[OutputPath(incoming, shared).value].content|
  {
    hide OutputPath;
  }

  /** Exactly when every write of a part that has been checked and opened stays within the announced
      size: if the end of its range does not wrap. */
  lemma {:induction false} CheckedWritesFitIff(incoming: Incoming, shared: Shared, files: Files)
    requires IsPart(incoming.header.kind) && Perform(Dispatch(incoming), shared, files).thrown == None
    requires var effect := Perform(Open(incoming), shared, files);
             && effect.thrown == None
             && IsFile(effect.files, OutputPath(incoming, effect.shared))
             && |effect.files[OutputPath(incoming, effect.shared).value].content| == incoming.header.totalSize
    ensures var h, effect := incoming.header, Perform(Open(incoming), shared, files);
            (forall got: nat, chunk: Bytes | chunk != [] && got + |chunk| <= h.payloadSize ::
               KeepsLength(incoming, got, chunk, effect.shared, effect.files)) <==>
            h.offset + h.payloadSize < U64_MODULUS
  {
    hide OutputPath, KeepsLength, SafeFileName, SafeRelativePath, PerformOpenPart;
    var h, effect := incoming.header, Perform(Open(incoming), shared, files);
    assert !ExceedsTotal(h.offset, h.payloadSize, h.totalSize);
    CheckedRangeFitsIff(h.offset, h.payloadSize, h.totalSize);
    if h.offset + h.payloadSize < U64_MODULUS {
      forall got: nat, chunk: Bytes | chunk != [] && got + |chunk| <= h.payloadSize
        ensures KeepsLength(incoming, got, chunk, effect.shared, effect.files)
      {
        LengthAfterWrite(incoming, got, chunk, effect.shared, effect.files);
      }
    } else {
      var got := if h.offset < h.totalSize then h.totalSize - h.offset else 0;
      LengthAfterWrite(incoming, got, [0], effect.shared, effect.files);
    }
  }

  /** A part that begins behind the announced size and passes the check. */
  function WrappedPart(name: Bytes): Incoming
    requires |name| < U64_MODULUS
  {
    Incoming(Header(KIND_FILE_PART, U64_MODULUS - 5, |name|, 10, 5), name)
  }

  /** It is accepted, the file is created with 5 bytes, and the first byte written makes it 11 long. */
  lemma {:induction false} WrappedPartIsWritten(job: Job, files: Files, data: Byte)
    requires ValidJob(job) && OutputFile(job) !in files
    ensures var incoming, shared := WrappedPart(job.name), Shared(false, [], 0);
            && Perform(Dispatch(incoming), shared, files) == Effect(shared, files, None)
            && var created := Perform(Open(incoming), shared, files);
               && created.thrown == None
               && IsFile(created.files, Some(OutputFile(job)))
               && |created.files[OutputFile(job)].content| == 5
               && var written := Perform(Write(incoming, 0, [data]), created.shared, created.files);
                  && written.thrown == None
                  && IsFile(written.files, Some(OutputFile(job)))
                  && |written.files[OutputFile(job)].content| == 11
  {
    hide SafeFileName, SafeRelativePath, Locate, Reach;
    NameStays(job);
    NoLinkToFile(job, files);
  }
}
