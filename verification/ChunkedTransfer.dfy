/** A chunked message from sender to receiver. */
module ChunkedTransfer {
  import opened Bytes
  import opened Transport
  import opened ChunkedCoding
  import opened SoapOutput
  import opened SoapInput

  /** Ends a message and connects a receiver to the other end: the receiver will read what was
      sent, in every mode of sending. */
  method Deliver(output: Output) returns (input: Input)
    requires output.Valid() && output.mode != Length && output.base == []
    modifies output, output.sock`output
    ensures fresh(input) && fresh(input.buf) && fresh(input.sock)
    ensures input.Valid() && input.ahead == 0 && input.Rest() == output.sent == old(output.sent)
  {
    hide Input.Valid, Input.Rest, Encode, Dechunk, Flatten;
    output.EndSend();
    var wire := output.sock.output;
    var line := new Socket(wire);
    input := new Input(line);
    assert [] + output.sent == output.sent;
    if output.mode == Chunk {
      ghost var e := Encode(0, output.chunks);
      assert LAST_CHUNK + [] == LAST_CHUNK;
      assert [] + (e + LAST_CHUNK) == e + LAST_CHUNK;
      DechunkEncode(0, output.chunks, []);
      input.BeginChunked();
    }
  }

  /** Whatever the pieces a message is sent in, and however the connection cuts the bytes up, the
      receiver reads the message's bytes, then end of input.  `head` is the header of the message:
      the receiver has read it when it finds that the rest is chunked, and has perhaps read on.
      `after` is what follows on the connection. */
  method RoundTrip(head: seq<byte>, message: seq<seq<byte>>, after: seq<byte>) returns (received: seq<byte>)
    ensures received == Flatten(message)
  {
    var line := new Socket([]);
    line.Send(head);
    var output := new Output(line, Chunk);
    for i := 0 to |message|
      invariant output.Valid() && output.sock == line && fresh(line) && fresh(output) && fresh(output.buf)
      invariant output.mode == Chunk && output.base == head
      invariant output.sent == Flatten(message[..i])
    {
      FlattenNext(message, i);
      output.SendRaw(message[i]);
    }
    assert message[..|message|] == message;
    output.EndSend();

    var wire := line.output + after;
    assert wire == head + (Encode(0, output.chunks) + (LAST_CHUNK + after));
    DechunkEncode(0, output.chunks, after);
    received := Receive(wire, head);
  }

  /** Reads a message with the given header to its end. */
  method Receive(wire: seq<byte>, head: seq<byte>) returns (received: seq<byte>)
    requires head <= wire
    ensures received == Dechunk(wire[|head|..])
  {
    hide *;
    var line := new Socket(wire);
    var input := new Input(line);
    var ok := input.Move(|head|);
    input.BeginChunked();
    received := ReadAll(input);
  }

  /** A message of any sender that keeps to the standard, whose chunk sizes have at most seven digits */
  method ReceiveStandard(head: seq<byte>, chunks: seq<SizedChunk>, last: SizedChunk, after: seq<byte>)
    returns (received: seq<byte>)
    requires GoodChunk(last) && last.data == []
    requires forall i :: 0 <= i < |chunks| ==> GoodChunk(chunks[i]) && chunks[i].data != []
    ensures received == DataOf(chunks)
  {
    hide GoodChunk, StandardBody, Dechunk;
    var body := StandardBody(chunks, last, after);
    DechunkStandard([], chunks, last, after);
    assert [] + body == body && (head + body)[|head|..] == body;
    received := Receive(head + body, head);
  }

  /** What is on the wire: a body of the standard, in upper-case sizes; a message without a byte has a
      line end too many in front of it. */
  method SendStandard(head: seq<byte>, message: seq<seq<byte>>) returns (wire: seq<byte>)
    requires |Flatten(message)| < SIZE_MODULUS
    ensures exists chunks: seq<seq<byte>> ::
      && Flatten(chunks) == Flatten(message) && (forall i :: 0 <= i < |chunks| ==> chunks[i] != [])
      && wire == head + (if Flatten(message) == [] then CRLF else []) + Body(chunks)
  {
    hide Encode, Body, Flatten;
    var line := new Socket([]);
    line.Send(head);
    var output := new Output(line, Chunk);
    NothingSent();
    for i := 0 to |message|
      invariant output.Valid() && output.sock == line && fresh(line) && fresh(output) && fresh(output.buf)
      invariant output.mode == Chunk && output.base == head
      invariant output.sent == Flatten(message[..i])
    {
      FlattenNext(message, i);
      output.SendRaw(message[i]);
    }
    assert message[..|message|] == message;
    output.EndSend();
    wire := line.output;
    ghost var chunks := output.chunks;
    SentBody(chunks);
    NoChunks(chunks);
    assert head + [] == head;
    ConcatAssociative(head, CRLF, Body([]));
  }

  lemma NothingSent()
    ensures Flatten<byte>([]) == []
  {
  }

  lemma NoChunks(chunks: seq<seq<byte>>)
    requires forall i :: 0 <= i < |chunks| ==> chunks[i] != []
    ensures Flatten(chunks) == [] <==> chunks == []
  {
  }

  method ReadAll(input: Input) returns (received: seq<byte>)
    requires input.Valid()
    modifies input, input.buf, input.sock`input
    ensures received == old(input.Rest())
  {
    hide Input.Rest, Input.Valid;
    ghost var payload := input.Rest();
    received := [];
    while true
      invariant input.Valid() && received + input.Rest() == payload
      decreases |payload| - |received|
    {
      ghost var rest := input.Rest();
      var c := input.Get1();
      if c == EOF {
        return;
      }
      assert rest == [c] + input.Rest();
      received := received + [c];
    }
  }
}
