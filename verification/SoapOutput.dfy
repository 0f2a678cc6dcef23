/** The sending half of `struct soap`: the send buffer and its three ways to the connection. */
module SoapOutput {
  import opened Bytes
  import opened Transport
  import opened ChunkedCoding

  /** SOAP_IO_FLUSH, SOAP_IO_BUFFER, SOAP_IO_CHUNK, and the SOAP_IO_LENGTH pass that only counts */
  datatype IoMode = Flush | Buffer | Chunk | Length

  class Output {
    const sock: Socket
    const buf: array<byte>
    const mode: IoMode
    var bufidx: nat         // bytes waiting in buf
    var chunksize: nat      // bytes sent in chunks so far, as a size_t
    var count: nat          // bytes counted
    ghost const base: seq<byte>          // what the connection carried before
    ghost var sent: seq<byte>            // everything passed to SendRaw
    ghost var chunks: seq<seq<byte>>     // the chunks on the wire

    ghost predicate Valid()
      reads this, buf, sock
    {
      && buf.Length == SOAP_BUFLEN
      && bufidx < SOAP_BUFLEN
      && match mode
         case Flush => bufidx == 0 && sock.output == base + sent
         case Buffer => sock.output + buf[..bufidx] == base + sent
         case Chunk =>
           && GoodChunks(chunks)
           && sock.output == base + Encode(0, chunks)
           && Flatten(chunks) + buf[..bufidx] == sent
           && chunksize == |Flatten(chunks)| % SIZE_MODULUS
         case Length => bufidx == 0 && sock.output == base && count == |sent|
    }

    /** soap_begin_send */
    constructor (sock: Socket, mode: IoMode)
      ensures Valid() && fresh(buf) && this.sock == sock && this.mode == mode
      ensures sent == [] && base == sock.output && chunks == []
    {
      this.sock, this.mode := sock, mode;
      buf := new byte[SOAP_BUFLEN];
      bufidx, chunksize, count := 0, 0, 0;
      base, sent, chunks := sock.output, [], [];
      new;
      assert base + [] == base;
    }

    /** soap_flush_raw outside SOAP_IO_STORE */
    method FlushRaw(s: seq<byte>)
      requires mode == Chunk ==> s != [] && |s| <= SOAP_BUFLEN && chunksize == |Flatten(chunks)| % SIZE_MODULUS
      requires mode == Chunk ==> GoodChunks(chunks) && sock.output == base + Encode(0, chunks)
      modifies this`chunksize, this`chunks, sock`output
      ensures mode != Chunk ==> chunksize == old(chunksize) && chunks == old(chunks)
      ensures mode != Chunk ==> sock.output == old(sock.output) + s
      ensures mode == Chunk ==> chunks == old(chunks) + [s] && chunksize == |Flatten(chunks)| % SIZE_MODULUS
      ensures mode == Chunk ==> GoodChunks(chunks) && sock.output == base + Encode(0, chunks)
    {
      hide Encode, Flatten, Hex;
      if mode == Chunk {
        var t := (if chunksize != 0 then CRLF else []) + Hex(|s|) + CRLF;
        EncodeSnoc(0, chunks, s);
        FlattenSnoc(chunks, s);
        sock.Send(t);
        chunksize := (chunksize + |s|) % SIZE_MODULUS;
        chunks := chunks + [s];
      }
      sock.Send(s);
    }

    /** soap_flush */
    method FlushBuffer()
      requires bufidx <= buf.Length == SOAP_BUFLEN && mode != Length
      requires mode == Flush ==> bufidx == 0 && sock.output == base + sent
      requires mode == Buffer ==> sock.output + buf[..bufidx] == base + sent
      requires mode == Chunk ==>
        && GoodChunks(chunks) && sock.output == base + Encode(0, chunks)
        && Flatten(chunks) + buf[..bufidx] == sent && chunksize == |Flatten(chunks)| % SIZE_MODULUS
      modifies this`bufidx, this`chunksize, this`chunks, sock`output
      ensures Valid() && bufidx == 0
    {
      var n := bufidx;
      if n != 0 {
        bufidx := 0;
        FlattenSnoc(chunks, buf[..n]);
        FlushRaw(buf[..n]);
      }
      assert buf[..0] == [];
    }

    /** soap_send_raw */
    method SendRaw(s: seq<byte>)
      requires Valid()
      modifies this, buf, sock`output
      ensures Valid() && sent == old(sent) + s
    {
      if s == [] {
        assert sent + s == sent;
        return;
      }
      if mode == Length {
        count := count + |s|;
        sent := sent + s;
        return;
      }
      if mode == Flush {
        sent := sent + s;
        FlushRaw(s);
        return;
      }
      var rest := s;
      var i := SOAP_BUFLEN - bufidx;
      while |rest| >= i
        invariant Valid() && i == SOAP_BUFLEN - bufidx
        invariant sent + rest == old(sent) + s
        decreases |rest|
      {
        Fill(rest[..i]);
        FlushBuffer();
        rest := rest[i..];
        i := SOAP_BUFLEN;
      }
      Fill(rest);
    }

    /** memcpy to the end of the buffered bytes */
    method Fill(s: seq<byte>)
      requires Valid() && mode in {Buffer, Chunk} && bufidx + |s| <= SOAP_BUFLEN
      modifies this`bufidx, this`sent, buf
      ensures bufidx == old(bufidx) + |s| && sent == old(sent) + s
      ensures mode == Buffer ==> sock.output + buf[..bufidx] == base + sent
      ensures mode == Chunk ==> Flatten(chunks) + buf[..bufidx] == sent
    {
      ConcatAssociative(sock.output, buf[..bufidx], s);
      ConcatAssociative(base, sent, s);
      ConcatAssociative(Flatten(chunks), buf[..bufidx], s);
      CopyInto(buf, bufidx, s);
      assert buf[..bufidx + |s|] == old(buf[..bufidx]) + s;
      bufidx := bufidx + |s|;
      sent := sent + s;
    }

    /** soap->count after a pass in SOAP_IO_LENGTH mode */
    function Count(): (n: nat)
      requires Valid() && mode == Length
      reads this, buf, sock
      ensures n == |sent|
    {
      count
    }

    /** soap_end_send: flushes, and closes a chunked message */
    method EndSend()
      requires Valid() && mode != Length
      modifies this`bufidx, this`chunksize, this`chunks, sock`output
      ensures mode != Chunk ==> sock.output == base + sent
      ensures mode == Chunk ==> sock.output == base + (Encode(0, chunks) + LAST_CHUNK)
      ensures mode == Chunk ==> GoodChunks(chunks) && Flatten(chunks) == sent
    {
      FlushBuffer();
      assert buf[..0] == [];
      if mode == Chunk {
        sock.Send(LAST_CHUNK);
      }
    }
  }
}
