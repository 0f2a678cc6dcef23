/** The two ends of a connection: `Send` is the fsend callback, `Recv` the frecv callback. */
module Transport {
  import opened Bytes

  /** Size of the buffer a `struct soap` keeps for either direction. */
  const SOAP_BUFLEN: nat := 65536

  class Socket {
    var input: seq<byte>    // bytes the peer has sent that were not received yet
    var output: seq<byte>   // everything handed to fsend so far

    constructor (input: seq<byte>)
      ensures this.input == input && output == []
    {
      this.input, output := input, [];
    }

    method Send(s: seq<byte>)
      modifies this`output
      ensures output == old(output) + s
    {
      output := output + s;
    }

    /** Receives any positive number of the waiting bytes that fits, or nothing at end of stream. */
    method Recv(buf: array<byte>, max: nat) returns (n: nat)
      requires 0 < max <= buf.Length
      modifies this`input, buf
      ensures n <= max && n <= |old(input)|
      ensures n == 0 <==> old(input) == []
      ensures buf[..n] == old(input)[..n] && input == old(input)[n..]
    {
      if input == [] {
        return 0;
      }
      n :| 0 < n && n <= max && n <= |input|;
      CopyInto(buf, 0, input[..n]);
      input := input[n..];
    }
  }
}
