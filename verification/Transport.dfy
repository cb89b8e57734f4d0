/** A connected TCP transport as the framing code sees it: a reliable byte pipe whose reads and
    writes may be arbitrarily short, and whose writes may fail. */
module Transport {
  import opened Basics

  const SEND_CHUNK_BYTES: nat := 1024 * 1024

  class TcpTransport {
    var input: Bytes   // what will still arrive before the peer's end of stream
    var output: Bytes  // what has been handed to the connection so far

    constructor (input: Bytes)
      ensures this.input == input && this.output == []
    {
      this.input := input;
      this.output := [];
    }

    /** The operating system takes any positive part of the chunk, or reports an error. */
    method OsSend(chunk: Bytes) returns (result: int)
      requires |chunk| > 0
      modifies this`output
      ensures result <= |chunk|
      ensures output == old(output) + if result > 0 then chunk[..result] else []
    {
      result :| result <= |chunk|;
      if result > 0 {
        output := output + chunk[..result];
      }
    }

    /** Sends all of `payload`, whatever part each system call takes; a failure leaves a proper
        prefix of it sent. */
    method Send(payload: Bytes) returns (ok: bool)
      modifies this`output
      ensures ok ==> output == old(output) + payload
      ensures !ok ==> exists n: nat | n < |payload| :: output == old(output) + payload[..n]
    {
      var sent := 0;
      while sent < |payload|
        invariant sent <= |payload|
        invariant output == old(output) + payload[..sent]
      {
        var chunk := Min(|payload| - sent, SEND_CHUNK_BYTES);
        var result := OsSend(payload[sent..sent + chunk]);
        if result <= 0 {
          return false;
        }
        assert payload[..sent] + payload[sent..sent + chunk][..result] == payload[..sent + result];
        sent := sent + result;
      }
      return true;
    }

    /** Receives at least one byte and at most `length`, or none at the end of the stream. */
    method ReceiveInto(buffer: array<Byte>, start: nat, length: nat) returns (received: nat)
      requires start + length <= buffer.Length
      modifies this`input, buffer
      ensures received <= length
      ensures received == 0 <==> length == 0 || old(input) == []
      ensures old(input) == buffer[start..start + received] + input
      ensures buffer[..start] == old(buffer[..start])
      ensures buffer[start + received..] == old(buffer[start + received..])
    {
      if length == 0 || input == [] {
        return 0;
      }
      received :| 0 < received <= length && received <= |input|;
      forall i | 0 <= i < received {
        buffer[start + i] := input[i];
      }
      input := input[received..];
    }
  }
}
