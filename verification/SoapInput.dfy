/** The receiving half of `struct soap`: the receive buffer, the chunked-input state machine
    and the reader's primitive steps. */
module SoapInput {
  import opened Bytes
  import opened Transport
  import opened ChunkedCoding

  class Input {
    const sock: Socket
    const buf: array<byte>
    var chunked: bool       // (mode & SOAP_IO) == SOAP_IO_CHUNK
    var bufidx: nat         // next unread byte of buf
    var buflen: nat         // end of the bytes the reader may see
    var chunksize: nat      // bytes of the open chunk still on the connection
    var chunkbuflen: nat    // end of the raw bytes in buf, while some of them are not payload yet
    var ahead: int          // a pushed-back character, 0 for none

    ghost predicate Valid()
      reads this`chunked, this`bufidx, this`buflen, this`chunksize, this`chunkbuflen
    {
      && buf.Length == SOAP_BUFLEN
      && bufidx <= buflen <= SOAP_BUFLEN
      && chunkbuflen <= SOAP_BUFLEN
      && (chunksize > 0 ==> chunkbuflen == 0)
      && (chunkbuflen > 0 ==> buflen <= chunkbuflen)
      && (!chunked ==> chunksize == 0 && chunkbuflen == 0)
    }

    /** The bytes that were received or will be, but are not exposed to the reader yet. */
    ghost function Wire(): seq<byte>
      requires Valid()
      reads this`chunked, this`bufidx, this`buflen, this`chunksize, this`chunkbuflen, buf, sock`input
    {
      (if chunkbuflen > 0 then buf[buflen..chunkbuflen] else []) + sock.input
    }

    ghost function Tail(): seq<byte>
      requires Valid()
      reads this`chunked, this`bufidx, this`buflen, this`chunksize, this`chunkbuflen, buf, sock`input
    {
      if chunked then TakeChunk(chunksize, Wire()) else sock.input
    }

    /** Everything the reader will get up to its first end of input, `ahead` apart. */
    ghost function Rest(): seq<byte>
      requires Valid()
      reads this`chunked, this`bufidx, this`buflen, this`chunksize, this`chunkbuflen, buf, sock`input
    {
      buf[bufidx..buflen] + Tail()
    }

    constructor (sock: Socket)
      ensures Valid() && fresh(buf) && this.sock == sock
      ensures !chunked && ahead == 0 && Rest() == sock.input
    {
      this.sock := sock;
      buf := new byte[SOAP_BUFLEN];
      chunked := false;
      bufidx, buflen, chunksize, chunkbuflen, ahead := 0, 0, 0, 0, 0;
    }

    /** The header parser has seen "Transfer-Encoding: chunked": what was read ahead of it is raw. */
    method BeginChunked()
      requires Valid() && !chunked
      modifies this
      ensures Valid() && chunked && ahead == old(ahead)
      ensures Rest() == Dechunk(old(Rest()))
    {
      chunked := true;
      chunkbuflen := buflen;
      buflen := bufidx;
      chunksize := 0;
      assert Wire() == old(Rest());
    }

    /** The raw bytes from the cursor on, while a chunk header is being read. */
    ghost function Raw(): seq<byte>
      requires Valid()
      reads this`chunked, this`bufidx, this`buflen, this`chunksize, this`chunkbuflen, buf, sock`input
    {
      buf[bufidx..buflen] + sock.input
    }

    method GetChunkChar() returns (c: int)
      requires Valid() && chunked && chunksize == 0 && chunkbuflen == buflen
      modifies this, buf, sock`input
      ensures Valid() && chunked && chunksize == 0 && chunkbuflen == buflen
      ensures ahead == old(ahead)
      ensures old(Raw()) == [] ==> c == EOF && Raw() == []
      ensures old(Raw()) != [] ==> c == SignedChar(old(Raw())[0]) && Raw() == old(Raw())[1..]
    {
      if bufidx < buflen {
        c := SignedChar(buf[bufidx]);
        bufidx := bufidx + 1;
        return;
      }
      bufidx := 0;
      buflen := sock.Recv(buf, SOAP_BUFLEN);
      chunkbuflen := buflen;
      if buflen != 0 {
        c := SignedChar(buf[bufidx]);
        bufidx := bufidx + 1;
        return;
      }
      c := EOF;
    }

    /** Reads a chunk header; `ok` is false when the input ends first. */
    method GetChunkSize() returns (ok: bool, size: nat)
      requires Valid() && chunked && chunksize == 0 && chunkbuflen == buflen
      modifies this, buf, sock`input
      ensures Valid() && chunked && chunksize == 0 && chunkbuflen == buflen
      ensures ahead == old(ahead)
      ensures ok <==> ParseHeader(old(Raw())).Size?
      ensures ok ==> ParseHeader(old(Raw())) == Size(size, Raw())
    {
      hide Raw, Valid, HexValue;
      ghost var h := ParseHeader(Raw());
      ok, size := false, 0;
      ghost var before := Raw();
      var c := GetChunkChar();
      while !IsHex(c)
        invariant Valid() && chunked && chunksize == 0 && chunkbuflen == buflen
        invariant ahead == old(ahead)
        invariant before == [] ==> c == EOF
        invariant before != [] ==> c == SignedChar(before[0]) && Raw() == before[1..]
        invariant h == ParseHeader(before)
        decreases before
      {
        if c == EOF {
          return;
        }
        before := Raw();
        c := GetChunkChar();
      }
      var tmp: seq<byte> := [c];
      before := Raw();
      assert h == ParseDigits(tmp, before);
      c := GetChunkChar();
      while IsHex(c) && |tmp| < 7
        invariant Valid() && chunked && chunksize == 0 && chunkbuflen == buflen
        invariant ahead == old(ahead)
        invariant before == [] ==> c == EOF
        invariant before != [] ==> c == SignedChar(before[0]) && Raw() == before[1..]
        invariant forall d | d in tmp :: IsHex(d)
        invariant h == ParseDigits(tmp, before)
        decreases before
      {
        tmp := tmp + [c];
        before := Raw();
        c := GetChunkChar();
      }
      size := HexValue(tmp);
      assert h == SkipLine(size, before);
      while c != EOF && c != LF
        invariant Valid() && chunked && chunksize == 0 && chunkbuflen == buflen
        invariant ahead == old(ahead)
        invariant before == [] ==> c == EOF
        invariant before != [] ==> c == SignedChar(before[0]) && Raw() == before[1..]
        invariant h == SkipLine(size, before)
        decreases before
      {
        before := Raw();
        c := GetChunkChar();
      }
      ok := c != EOF;
    }

    /** A chunk of `size` bytes starts at the cursor: exposes what the buffer holds of it. */
    method OpenChunk(size: nat)
      requires Valid() && chunked && chunksize == 0 && chunkbuflen == buflen && size > 0
      modifies this`buflen, this`chunksize, this`chunkbuflen
      ensures Valid() && Rest() == TakeChunk(size, old(Raw()))
      ensures bufidx == buflen ==> chunksize > 0
    {
      hide TakeChunk;
      ghost var raw := Raw();
      chunksize := size;
      buflen := bufidx + chunksize;
      if buflen > chunkbuflen {
        buflen := chunkbuflen;
        chunksize := chunksize - (buflen - bufidx);
        chunkbuflen := 0;
      } else if chunkbuflen > 0 {
        chunksize := 0;
      }
      TakeChunkSplit(size, raw, buf[bufidx..buflen], Wire());
    }

    /** Receives more of the open chunk. */
    method RecvChunk()
      requires Valid() && chunked && chunksize > 0 && bufidx == buflen
      modifies this`bufidx, this`buflen, this`chunksize, buf, sock`input
      ensures Valid() && Rest() == old(Rest())
      ensures buflen == 0 <==> Rest() == []
      ensures bufidx == 0
    {
      hide TakeChunk;
      ghost var w := sock.input;
      assert Wire() == w && Rest() == Tail();
      TakeChunkEmpty(chunksize, w);
      buflen := sock.Recv(buf, if chunksize > SOAP_BUFLEN then SOAP_BUFLEN else chunksize);
      bufidx := 0;
      chunksize := chunksize - buflen;
      assert Wire() == sock.input;
      TakeChunkSplit(old(chunksize), w, buf[bufidx..buflen], Wire());
    }

    /** Moves the cursor to the raw bytes in front of the next chunk header. */
    method FindChunk() returns (end: bool)
      requires Valid() && chunked && chunksize == 0 && bufidx == buflen
      modifies this, buf, sock`input
      ensures Valid() && chunked && chunksize == 0
      ensures end ==> old(Wire()) == [] && ahead == EOF
      ensures !end ==> chunkbuflen == buflen && Raw() == old(Wire()) && ahead == old(ahead)
    {
      if chunkbuflen == 0 {
        bufidx, buflen := 0, 0;
        chunkbuflen := sock.Recv(buf, SOAP_BUFLEN);
        if chunkbuflen == 0 {
          ahead := EOF;
          return true;
        }
      } else {
        bufidx := buflen;
      }
      buflen := chunkbuflen;
      return false;
    }

    /** Reads the next chunk header; `end` is the end of the input, or the last chunk. */
    method NextChunk() returns (end: bool)
      requires Valid() && chunked && chunksize == 0 && bufidx == buflen
      modifies this, buf, sock`input
      ensures Valid() && chunked && (end ==> old(Rest()) == [] && ahead == EOF)
      ensures !end ==> Rest() == old(Rest()) && ahead == old(ahead)
      ensures !end ==> if bufidx == buflen then chunksize > 0 else Rest() != []
    {
      hide TakeChunk, Dechunk, ParseHeader;
      TakeChunkZero(Wire());
      end := FindChunk();
      if end {
        return;
      }
      var ok, size := GetChunkSize();
      if !ok || size == 0 {
        chunkbuflen := if ok then 0 else chunkbuflen;
        ahead := EOF;
        return true;
      }
      OpenChunk(size);
    }

    /** soap_recv_raw: refills the buffer.  `end` is the end of the input. */
    method RecvRaw() returns (end: bool)
      requires Valid() && bufidx == buflen
      modifies this, buf, sock`input
      ensures Valid() && (end <==> old(Rest()) == [])
      ensures end ==> ahead == EOF || (ahead == old(ahead) && Rest() == [])
      ensures !end ==> bufidx < buflen && Rest() == old(Rest())
      ensures !end ==> ahead == old(ahead) && chunked == old(chunked)
    {
      hide TakeChunk, Dechunk, ParseHeader;
      if !chunked {
        bufidx := 0;
        buflen := sock.Recv(buf, SOAP_BUFLEN);
        return buflen == 0;
      }
      while true
        invariant Valid() && chunked && bufidx == buflen && Rest() == old(Rest())
        invariant ahead == old(ahead)
        decreases chunksize == 0
      {
        if chunksize > 0 {
          RecvChunk();
          return buflen == 0;
        }
        end := NextChunk();
        if end || buflen != bufidx {
          return;
        }
      }
    }

    /** soap_get0: looks at the next byte */
    method Get0() returns (c: int)
      requires Valid()
      modifies this, buf, sock`input
      ensures Valid() && (old(Rest()) == [] ==> c == EOF)
      ensures c == EOF ==> ahead == EOF || (ahead == old(ahead) && Rest() == [])
      ensures old(Rest()) != [] ==> c == old(Rest())[0] && Rest() == old(Rest())
      ensures old(Rest()) != [] ==> ahead == old(ahead) && chunked == old(chunked)
    {
      hide TakeChunk;
      if bufidx >= buflen {
        var end := RecvRaw();
        if end {
          return EOF;
        }
      }
      assert Rest()[0] == buf[bufidx];
      c := buf[bufidx];
    }

    /** The byte before the cursor is c. */
    ghost predicate Took(c: int)
      reads this`bufidx, buf
    {
      0 < bufidx <= buf.Length && buf[bufidx - 1] == c
    }

    /** soap_get1: takes the next byte */
    method Get1() returns (c: int)
      requires Valid()
      modifies this, buf, sock`input
      ensures Valid() && (old(Rest()) == [] ==> c == EOF)
      ensures old(Rest()) != [] ==> c == old(Rest())[0] && Rest() == old(Rest())[1..]
      ensures old(Rest()) != [] ==> Took(c)
      ensures c == EOF ==> ahead == EOF || (ahead == old(ahead) && Rest() == [])
      ensures old(Rest()) != [] ==> ahead == old(ahead) && chunked == old(chunked)
    {
      hide TakeChunk;
      if bufidx >= buflen {
        var end := RecvRaw();
        if end {
          return EOF;
        }
      }
      ghost var rest := Rest();
      assert rest[0] == buf[bufidx];
      c := buf[bufidx];
      bufidx := bufidx + 1;
      assert Rest() == rest[1..];
    }

    /** soap_revget1: gives the byte last taken back.  At the start of the buffer, where there is
        none, the index wraps round. */
    method RevGet1()
      modifies this`bufidx
      ensures old(Valid()) && old(bufidx) > 0 ==>
        Valid() && Rest() == [old(buf[bufidx - 1])] + old(Rest())
    {
      hide TakeChunk;
      bufidx := (bufidx + SIZE_MODULUS - 1) % SIZE_MODULUS;
      if old(Valid()) && old(bufidx) > 0 {
        assert bufidx == old(bufidx) - 1 && Tail() == old(Tail());
        assert buf[bufidx..buflen] == [buf[bufidx]] + old(buf[bufidx..buflen]);
        ConcatAssociative([buf[bufidx]], old(buf[bufidx..buflen]), Tail());
      }
    }

    /** soap_unget */
    method Unget(c: int)
      modifies this`ahead
      ensures ahead == c
    {
      ahead := c;
    }

    /** soap_getchar: the pushed-back character, or else the next byte */
    method GetChar() returns (c: int)
      requires Valid()
      modifies this, buf, sock`input
      ensures Valid()
      ensures old(ahead) != 0 ==>
        && c == old(ahead) && Rest() == old(Rest())
        && ahead == (if c == EOF then EOF else 0) && chunked == old(chunked)
      ensures old(ahead) == 0 && old(Rest()) == [] ==> c == EOF && (ahead == EOF || (ahead == 0 && Rest() == []))
      ensures old(ahead) == 0 && old(Rest()) != [] ==>
        && c == old(Rest())[0] && Rest() == old(Rest())[1..]
        && ahead == 0 && chunked == old(chunked)
    {
      hide Rest, Valid;
      c := ahead;
      if c != 0 {
        if c != EOF {
          ahead := 0;
        }
        return;
      }
      c := Get1();
    }

    /** soap_move: skips n bytes; `ok` is false if there are fewer */
    method Move(n: nat) returns (ok: bool)
      requires Valid() && ahead == 0
      modifies this, buf, sock`input
      ensures ok <==> n <= |old(Rest())|
      ensures ok ==> Valid() && ahead == 0 && Rest() == old(Rest())[n..] && chunked == old(chunked)
    {
      hide Rest, Valid;
      ghost var rest := Rest();
      var k := n;
      while k > 0
        invariant 0 <= k <= n && n - k <= |rest|
        invariant Valid() && ahead == 0 && chunked == old(chunked)
        invariant Rest() == rest[n - k..]
      {
        var c := GetChar();
        if c == EOF {
          return false;
        }
        k := k - 1;
      }
      return true;
    }
  }
}
