/** The HTTP chunked transfer coding (section 3.6.1 of RFC 2616) as values:
    what a sender puts on the wire and what a receiver makes of any wire whatever. */
module ChunkedCoding {
  import opened Bytes

  /** soap_isxdigit */
  predicate IsHex(c: int) {
    48 <= c <= 57 || 65 <= c <= 70 || 97 <= c <= 102
  }

  function HexDigit(d: nat): (c: byte)
    requires d < 16
    ensures IsHex(c) && DigitValue(c) == d
  {
    if d < 10 then 48 + d else 55 + d
  }

  function DigitValue(c: byte): nat
    requires IsHex(c)
  {
    if c <= 57 then c - 48 else if c <= 70 then c - 55 else c - 87
  }

  /** sprintf "%lX" */
  function Hex(n: nat): (s: seq<byte>)
    ensures s != [] && forall c | c in s :: IsHex(c)
  {
    if n < 16 then [HexDigit(n)] else Hex(n / 16) + [HexDigit(n % 16)]
  }

  /** strtoul in base 16 on a string of digits */
  function HexValue(s: seq<byte>): nat
    requires forall c | c in s :: IsHex(c)
  {
    if s == [] then 0 else 16 * HexValue(s[..|s| - 1]) + DigitValue(s[|s| - 1])
  }

  lemma {:induction false} HexInverse(n: nat)
    ensures HexValue(Hex(n)) == n
  {
    if n >= 16 {
      HexInverse(n / 16);
      assert Hex(n)[..|Hex(n)| - 1] == Hex(n / 16);
    }
  }

  /** The reader keeps at most seven digits of a size. */
  predicate FitsHeader(n: nat) {
    n < 0x1000_0000
  }

  lemma {:induction false} HexLength(n: nat, digits: nat, bound: nat)
    requires n < bound && bound == Pow16(digits) && digits > 0
    ensures |Hex(n)| <= digits
  {
    if n >= 16 {
      assert digits > 1;
      HexLength(n / 16, digits - 1, bound / 16);
    }
  }

  function Pow16(k: nat): nat {
    if k == 0 then 1 else 16 * Pow16(k - 1)
  }

  // ---------- the sender's side ----------

  /** The running size counter is a 64-bit size_t and only its being zero is looked at. */
  const SIZE_MODULUS: nat := 0x1_0000_0000_0000_0000

  /** The header of a chunk of n bytes when `total` bytes went before it. */
  function ChunkHeader(total: nat, n: nat): seq<byte> {
    (if total % SIZE_MODULUS != 0 then CRLF else []) + Hex(n) + CRLF
  }

  function Encode(total: nat, chunks: seq<seq<byte>>): seq<byte>
    decreases chunks
  {
    if chunks == [] then []
    else ChunkHeader(total, |chunks[0]|) + chunks[0] + Encode(total + |chunks[0]|, chunks[1..])
  }

  const LAST_CHUNK: seq<byte> := [13, 10, 48, 13, 10, 13, 10]

  /** Every chunk carries data and has a size the reader can read. */
  ghost predicate GoodChunks(chunks: seq<seq<byte>>) {
    forall i | 0 <= i < |chunks| :: chunks[i] != [] && FitsHeader(|chunks[i]|)
  }

  lemma {:induction false} EncodeSnoc(total: nat, chunks: seq<seq<byte>>, c: seq<byte>)
    ensures Encode(total, chunks + [c]) ==
            Encode(total, chunks) + ChunkHeader(total + |Flatten(chunks)|, |c|) + c
    decreases chunks
  {
    hide ChunkHeader;
    if chunks == [] {
      assert Encode(total, [c]) == ChunkHeader(total, |c|) + c + Encode(total + |c|, []);
    } else {
      assert (chunks + [c])[1..] == chunks[1..] + [c];
      EncodeSnoc(total + |chunks[0]|, chunks[1..], c);
    }
  }

  // ---------- the receiver's side ----------

  datatype Header = Broken | Size(n: nat, rest: seq<byte>)

  /** Skips to the first hexadecimal digit. */
  function ParseHeader(s: seq<byte>): (h: Header)
    ensures h.Size? ==> |h.rest| < |s|
  {
    if s == [] || s[0] == 255 then Broken
    else if IsHex(s[0]) then ParseDigits([s[0]], s[1..])
    else ParseHeader(s[1..])
  }

  /** Collects further digits, seven in all. */
  function ParseDigits(tmp: seq<byte>, s: seq<byte>): (h: Header)
    requires forall c | c in tmp :: IsHex(c)
    ensures h.Size? ==> |h.rest| < |s|
    decreases s
  {
    if s != [] && IsHex(s[0]) && |tmp| < 7 then ParseDigits(tmp + [s[0]], s[1..])
    else SkipLine(HexValue(tmp), s)
  }

  /** Skips the rest of the header line. */
  function SkipLine(n: nat, s: seq<byte>): (h: Header)
    ensures h.Size? ==> |h.rest| < |s|
    decreases s
  {
    if s == [] || s[0] == 255 then Broken
    else if s[0] == LF then Size(n, s[1..])
    else SkipLine(n, s[1..])
  }

  /** The payload a receiver takes from a wire, well formed or not, up to its first end of input. */
  function Dechunk(s: seq<byte>): seq<byte>
    decreases |s|
  {
    match ParseHeader(s)
    case Broken => []
    case Size(n, rest) =>
      if n == 0 then []
      else if |rest| <= n then rest
      else rest[..n] + Dechunk(rest[n..])
  }

  /** The payload of a wire that begins with n bytes of an open chunk. */
  function TakeChunk(n: nat, s: seq<byte>): seq<byte> {
    if |s| <= n then s else s[..n] + Dechunk(s[n..])
  }

  lemma TakeChunkEmpty(n: nat, s: seq<byte>)
    requires n > 0
    ensures TakeChunk(n, s) == [] <==> s == []
  {
    if |s| > n {
      assert TakeChunk(n, s)[0] == s[0];
    }
  }

  lemma TakeChunkZero(s: seq<byte>)
    ensures TakeChunk(0, s) == match ParseHeader(s)
                               case Broken => []
                               case Size(n, rest) => if n == 0 then [] else TakeChunk(n, rest)
  {
  }

  lemma TakeChunkSplit(n: nat, s: seq<byte>, shown: seq<byte>, rest: seq<byte>)
    requires |shown| <= n && s == shown + rest
    ensures TakeChunk(n, s) == shown + TakeChunk(n - |shown|, rest)
  {
    if |s| > n {
      assert rest[n - |shown|..] == s[n..];
      assert s[..n] == shown + rest[..n - |shown|];
    }
  }

  lemma {:induction false} ParseDigitsOf(tmp: seq<byte>, ds: seq<byte>, rest: seq<byte>)
    requires forall c | c in tmp + ds :: IsHex(c)
    requires |tmp + ds| <= 7
    ensures ParseDigits(tmp, ds + CRLF + rest) == Size(HexValue(tmp + ds), rest)
    decreases ds
  {
    var s := ds + CRLF + rest;
    if ds == [] {
      assert tmp + ds == tmp;
      assert s[1..] == [LF] + rest;
      assert s[1..][1..] == rest;
      assert SkipLine(HexValue(tmp), s) == SkipLine(HexValue(tmp), s[1..]) == Size(HexValue(tmp), rest);
    } else {
      assert s[1..] == ds[1..] + CRLF + rest;
      assert tmp + [ds[0]] + ds[1..] == tmp + ds;
      assert s[0] == ds[0] && ds[0] in tmp + ds;
      ParseDigitsOf(tmp + [ds[0]], ds[1..], rest);
    }
  }

  lemma ParseSize(n: nat, rest: seq<byte>)
    requires FitsHeader(n)
    ensures ParseHeader(Hex(n) + CRLF + rest) == Size(n, rest)
    ensures ParseHeader(CRLF + Hex(n) + CRLF + rest) == Size(n, rest)
  {
    hide Hex, ParseDigits;
    var h := Hex(n);
    var s := h + CRLF + rest;
    assert Pow16(7) == 0x1000_0000;
    HexLength(n, 7, 0x1000_0000);
    HexInverse(n);
    assert s[0] == h[0] && h[0] in h;
    assert s[1..] == h[1..] + CRLF + rest;
    assert [h[0]] + h[1..] == h;
    ParseDigitsOf([h[0]], h[1..], rest);
    LineFirst(s);
    assert CRLF + s == CRLF + h + CRLF + rest;
  }

  /** The end of a line in front of the size is passed over. */
  lemma LineFirst(s: seq<byte>)
    ensures ParseHeader(CRLF + s) == ParseHeader(s)
  {
    assert (CRLF + s)[1..] == [LF] + s && ([LF] + s)[1..] == s;
    assert ParseHeader(CRLF + s) == ParseHeader([LF] + s) == ParseHeader(s);
  }

  lemma DechunkSize(n: nat, s: seq<byte>, rest: seq<byte>)
    requires ParseHeader(s) == Size(n, rest)
    ensures Dechunk(s) == if n == 0 then [] else TakeChunk(n, rest)
  {
  }

  lemma EncodeStep(total: nat, chunks: seq<seq<byte>>, tail: seq<byte>)
    requires chunks != []
    ensures Encode(total, chunks) + tail ==
            ChunkHeader(total, |chunks[0]|) + (chunks[0] + (Encode(total + |chunks[0]|, chunks[1..]) + tail))
  {
    hide ChunkHeader;
    var h, c, more := ChunkHeader(total, |chunks[0]|), chunks[0], Encode(total + |chunks[0]|, chunks[1..]);
    ConcatAssociative(h, c, more);
    ConcatAssociative(h, c + more, tail);
    ConcatAssociative(c, more, tail);
  }

  lemma ParseChunkHeader(total: nat, n: nat, rest: seq<byte>)
    requires FitsHeader(n)
    ensures ParseHeader(ChunkHeader(total, n) + rest) == Size(n, rest)
  {
    ParseSize(n, rest);
    assert [] + Hex(n) == Hex(n);
  }

  lemma DechunkLast(after: seq<byte>)
    ensures Dechunk(LAST_CHUNK + after) == []
  {
    assert Hex(0) == [48];
    assert LAST_CHUNK + after == CRLF + Hex(0) + CRLF + (CRLF + after);
    ParseSize(0, CRLF + after);
    DechunkSize(0, LAST_CHUNK + after, CRLF + after);
  }

  lemma DechunkFirst(total: nat, c: seq<byte>, tail: seq<byte>)
    requires c != [] && FitsHeader(|c|)
    ensures Dechunk(ChunkHeader(total, |c|) + (c + tail)) == c + Dechunk(tail)
  {
    ParseChunkHeader(total, |c|, c + tail);
    DechunkSize(|c|, ChunkHeader(total, |c|) + (c + tail), c + tail);
    assert (c + tail)[..|c|] == c && (c + tail)[|c|..] == tail;
  }

  lemma {:induction false} DechunkPrefix(total: nat, chunks: seq<seq<byte>>, tail: seq<byte>)
    requires GoodChunks(chunks)
    ensures Dechunk(Encode(total, chunks) + tail) == Flatten(chunks) + Dechunk(tail)
    decreases chunks
  {
    hide Dechunk, ChunkHeader, Encode, Flatten;
    if chunks == [] {
      EncodeNone(total);
      assert [] + tail == tail && [] + Dechunk(tail) == Dechunk(tail);
    } else {
      FlattenFirst(chunks);
      EncodeStep(total, chunks, tail);
      var c := chunks[0];
      DechunkFirst(total, c, Encode(total + |c|, chunks[1..]) + tail);
      DechunkPrefix(total + |c|, chunks[1..], tail);
      ConcatAssociative(c, Flatten(chunks[1..]), Dechunk(tail));
    }
  }

  lemma EncodeNone(total: nat)
    ensures Encode(total, []) == [] && Flatten<byte>([]) == []
  {
  }

  /** Decoding a well-formed wire gives the chunks' bytes back, whatever follows the last chunk. */
  lemma DechunkEncode(total: nat, chunks: seq<seq<byte>>, after: seq<byte>)
    requires GoodChunks(chunks)
    ensures Dechunk(Encode(total, chunks) + (LAST_CHUNK + after)) == Flatten(chunks)
  {
    DechunkPrefix(total, chunks, LAST_CHUNK + after);
    DechunkLast(after);
  }

  // ---------- other senders, and the standard ----------

  const UPPER: string := "0123456789ABCDEF"
  const LOWER: string := "0123456789abcdef"

  /** The sixteen digits, in either case */
  lemma DigitChars(c: byte, d: nat)
    requires d < 16 && (c == UPPER[d] as int || c == LOWER[d] as int)
    ensures IsHex(c) && DigitValue(c) == d
  {
  }

  lemma HexChars(c: byte)
    ensures IsHex(c) <==> exists d :: 0 <= d < 16 && (c == UPPER[d] as int || c == LOWER[d] as int)
  {
    if IsHex(c) {
      var d := DigitValue(c);
      assert c == UPPER[d] as int || c == LOWER[d] as int;
    }
    if d :| 0 <= d < 16 && (c == UPPER[d] as int || c == LOWER[d] as int) {
      DigitChars(c, d);
    }
  }

  /** s is the number d written in other letters: each digit in upper or lower case. */
  predicate AnyCase(d: seq<byte>, s: seq<byte>) {
    |s| == |d| && forall i :: 0 <= i < |d| ==> s[i] == d[i] || (65 <= d[i] <= 70 && s[i] == d[i] + 32)
  }

  lemma {:induction false} AnyCaseValue(d: seq<byte>, s: seq<byte>)
    requires AnyCase(d, s) && forall c :: c in d ==> IsHex(c)
    ensures forall c :: c in s ==> IsHex(c)
    ensures HexValue(s) == HexValue(d)
    decreases d
  {
    if d != [] {
      var n := |d| - 1;
      AnyCaseValue(d[..n], s[..n]);
      assert s == s[..n] + [s[n]];
    }
  }

  /** Nothing in it ends the search for a size. */
  predicate NoSize(s: seq<byte>) {
    forall i :: 0 <= i < |s| ==> !IsHex(s[i]) && s[i] != 255
  }

  /** The rest of the line of a header, which may say something more of the chunk */
  predicate Extension(s: seq<byte>) {
    forall i :: 0 <= i < |s| ==> s[i] != LF && s[i] != 255
  }

  lemma {:induction false} LineSkipped(n: nat, ext: seq<byte>, rest: seq<byte>)
    requires Extension(ext)
    ensures SkipLine(n, ext + ([LF] + rest)) == Size(n, rest)
    decreases ext
  {
    var s := ext + ([LF] + rest);
    if ext == [] {
      assert s[1..] == rest;
    } else {
      assert s[0] == ext[0] && s[1..] == ext[1..] + ([LF] + rest);
      LineSkipped(n, ext[1..], rest);
    }
  }

  lemma {:induction false} DigitsRead(tmp: seq<byte>, ds: seq<byte>, rest: seq<byte>)
    requires (forall c :: c in tmp + ds ==> IsHex(c)) && |tmp + ds| <= 7
    requires |tmp + ds| == 7 || rest == [] || !IsHex(rest[0])
    ensures ParseDigits(tmp, ds + rest) == SkipLine(HexValue(tmp + ds), rest)
    decreases ds
  {
    var s := ds + rest;
    if ds == [] {
      assert tmp + ds == tmp && s == rest;
    } else {
      assert s[0] == ds[0] && s[1..] == ds[1..] + rest && ds[0] in tmp + ds;
      assert tmp + [ds[0]] + ds[1..] == tmp + ds;
      DigitsRead(tmp + [ds[0]], ds[1..], rest);
    }
  }

  lemma {:induction false} SizeFound(before: seq<byte>, s: seq<byte>)
    requires NoSize(before)
    ensures ParseHeader(before + s) == ParseHeader(s)
    decreases before
  {
    if before == [] {
      assert before + s == s;
    } else {
      assert (before + s)[0] == before[0] && (before + s)[1..] == before[1..] + s;
      SizeFound(before[1..], s);
    }
  }

  /** Any header: the end of the line before, one to seven digits in either case, an extension, which
      begins with no further digit unless seven were read, and the line end. */
  lemma HeaderRead(before: seq<byte>, ds: seq<byte>, ext: seq<byte>, rest: seq<byte>)
    requires NoSize(before) && 0 < |ds| <= 7 && (forall c :: c in ds ==> IsHex(c)) && Extension(ext)
    requires |ds| == 7 || ext == [] || !IsHex(ext[0])
    ensures ParseHeader(before + (ds + (ext + ([LF] + rest)))) == Size(HexValue(ds), rest)
  {
    hide SkipLine;
    var line := ext + ([LF] + rest);
    SizeFound(before, ds + line);
    FirstDigit(ds, line);
    assert [ds[0]] + ds[1..] == ds;
    DigitsRead([ds[0]], ds[1..], line);
    LineSkipped(HexValue(ds), ext, rest);
  }

  /** So the size of a chunk may be written in upper and lower case. */
  lemma AnyHeader(n: nat, before: seq<byte>, ds: seq<byte>, ext: seq<byte>, rest: seq<byte>)
    requires FitsHeader(n) && NoSize(before) && AnyCase(Hex(n), ds) && Extension(ext)
    requires |ds| == 7 || ext == [] || !IsHex(ext[0])
    ensures ParseHeader(before + (ds + (ext + ([LF] + rest)))) == Size(n, rest)
  {
    hide Hex, ParseHeader;
    HexLength(n, 7, 0x1000_0000);
    HexInverse(n);
    AnyCaseValue(Hex(n), ds);
    assert Pow16(7) == 0x1000_0000;
    HeaderRead(before, ds, ext, rest);
  }

  lemma FirstDigit(ds: seq<byte>, line: seq<byte>)
    requires ds != [] && IsHex(ds[0])
    ensures ParseHeader(ds + line) == ParseDigits([ds[0]], ds[1..] + line)
  {
    assert (ds + line)[0] == ds[0] && (ds + line)[1..] == ds[1..] + line;
  }

  /** A chunk as the standard has it: its size, an extension and its data */
  datatype SizedChunk = SizedChunk(size: seq<byte>, ext: seq<byte>, data: seq<byte>)

  predicate GoodChunk(c: SizedChunk) {
    && 0 < |c.size| <= 7 && (forall d :: d in c.size ==> IsHex(d)) && HexValue(c.size) == |c.data|
    && Extension(c.ext) && (c.ext != [] ==> !IsHex(c.ext[0]))
  }

  /** A Chunked-Body of section 3.6.1 of RFC 2616 in front of whatever follows: the chunks, and one of
      size zero behind them */
  function StandardBody(chunks: seq<SizedChunk>, last: SizedChunk, after: seq<byte>): seq<byte> {
    if chunks == [] then last.size + (last.ext + ([CR] + ([LF] + after)))
    else
      var c := chunks[0];
      c.size + (c.ext + ([CR] + ([LF] + (c.data + (CRLF + StandardBody(chunks[1..], last, after))))))
  }

  function DataOf(chunks: seq<SizedChunk>): seq<byte> {
    if chunks == [] then [] else chunks[0].data + DataOf(chunks[1..])
  }

  /** The header of one chunk, behind the line end of the chunk before */
  lemma ChunkRead(before: seq<byte>, c: SizedChunk, rest: seq<byte>)
    requires GoodChunk(c) && NoSize(before)
    ensures ParseHeader(before + (c.size + (c.ext + ([CR] + ([LF] + rest))))) == Size(|c.data|, rest)
  {
    hide ParseHeader;
    HeaderRead(before, c.size, c.ext + [CR], rest);
    assert c.ext + [CR] + ([LF] + rest) == c.ext + ([CR] + ([LF] + rest));
  }

  lemma {:induction false} DechunkStandard(before: seq<byte>, chunks: seq<SizedChunk>, last: SizedChunk,
                                           after: seq<byte>)
    requires NoSize(before) && GoodChunk(last) && last.data == []
    requires forall i :: 0 <= i < |chunks| ==> GoodChunk(chunks[i]) && chunks[i].data != []
    ensures Dechunk(before + StandardBody(chunks, last, after)) == DataOf(chunks)
    decreases chunks
  {
    hide ParseHeader, GoodChunk, Dechunk;
    var s := before + StandardBody(chunks, last, after);
    if chunks == [] {
      ChunkRead(before, last, after);
      DechunkSize(0, s, after);
    } else {
      var c := chunks[0];
      var more := CRLF + StandardBody(chunks[1..], last, after);
      ChunkRead(before, c, c.data + more);
      DechunkStandard(CRLF, chunks[1..], last, after);
      DechunkSize(|c.data|, s, c.data + more);
      TakeWhole(c.data, more);
    }
  }

  lemma TakeWhole(data: seq<byte>, rest: seq<byte>)
    requires rest != []
    ensures TakeChunk(|data|, data + rest) == data + Dechunk(rest)
  {
    hide Dechunk;
    assert (data + rest)[..|data|] == data && (data + rest)[|data|..] == rest;
  }

  /** Ten bytes in a chunk with a lower-case size */
  lemma TenBytes(data: seq<byte>, after: seq<byte>)
    requires |data| == 10
    ensures Dechunk(Ascii("a\r\n") + (data + (Ascii("\r\n0\r\n\r\n") + after))) == data
  {
    var rest := data + (Ascii("\r\n0\r\n\r\n") + after);
    assert Hex(10) == [65];
    assert Ascii("a\r\n") == [97, 13, 10] && Ascii("\r\n0\r\n\r\n") == LAST_CHUNK;
    AnyHeader(10, [], [97], [13], rest);
    assert [] + ([97] + ([13] + ([LF] + rest))) == [97, 13, 10] + rest;
    DechunkSize(10, [97, 13, 10] + rest, rest);
    DechunkLast(after);
    assert rest[..10] == data && rest[10..] == LAST_CHUNK + after;
    assert data + [] == data;
  }

  /** A header that the end of the input, or a byte 255, cuts off ends the message. */
  lemma {:induction false} CutOff(before: seq<byte>, tail: seq<byte>)
    requires NoSize(before) && (tail == [] || tail[0] == 255)
    ensures ParseHeader(before + tail) == Broken && Dechunk(before + tail) == []
  {
    SizeFound(before, tail);
  }

  lemma {:induction false} LineCutOff(n: nat, ext: seq<byte>, tail: seq<byte>)
    requires Extension(ext) && (tail == [] || tail[0] == 255)
    ensures SkipLine(n, ext + tail) == Broken
    decreases ext
  {
    if ext == [] {
      assert ext + tail == tail;
    } else {
      assert (ext + tail)[0] == ext[0] && (ext + tail)[1..] == ext[1..] + tail;
      LineCutOff(n, ext[1..], tail);
    }
  }

  lemma SizeCutOff(before: seq<byte>, ds: seq<byte>, ext: seq<byte>, tail: seq<byte>)
    requires NoSize(before) && Extension(ext) && (tail == [] || tail[0] == 255)
    requires 0 < |ds| <= 7 && (forall c :: c in ds ==> IsHex(c)) && (|ds| == 7 || ext == [] || !IsHex(ext[0]))
    ensures Dechunk(before + (ds + (ext + tail))) == []
  {
    hide SkipLine;
    SizeFound(before, ds + (ext + tail));
    FirstDigit(ds, ext + tail);
    assert [ds[0]] + ds[1..] == ds;
    assert ext == [] ==> ext + tail == tail;
    DigitsRead([ds[0]], ds[1..], ext + tail);
    LineCutOff(HexValue(ds), ext, tail);
  }

  /** chunk and Chunked-Body of section 3.6.1 of RFC 2616, without extensions and trailer */
  function Body(chunks: seq<seq<byte>>): seq<byte> {
    if chunks == [] then Ascii("0\r\n\r\n")
    else Hex(|chunks[0]|) + CRLF + chunks[0] + CRLF + Body(chunks[1..])
  }

  lemma {:induction false} HexUpper(n: nat)
    ensures forall i :: 0 <= i < |Hex(n)| ==> exists d :: 0 <= d < 16 && Hex(n)[i] == UPPER[d] as int
    ensures n > 0 ==> Hex(n)[0] != 48
  {
    assert HexDigit(n % 16) == UPPER[n % 16] as int;
    if n >= 16 {
      HexUpper(n / 16);
    }
  }

  lemma {:induction false} EncodeBody(total: nat, chunks: seq<seq<byte>>)
    requires total > 0 && total + |Flatten(chunks)| < SIZE_MODULUS
    ensures Encode(total, chunks) + LAST_CHUNK == CRLF + Body(chunks)
    decreases chunks
  {
    hide Hex, Encode, Body, Flatten;
    if chunks == [] {
      NoBody(total);
    } else {
      FlattenFirst(chunks);
      EncodeBody(total + |chunks[0]|, chunks[1..]);
      EncodeStep(total, chunks, LAST_CHUNK);
      BodyStep(chunks);
    }
  }

  lemma NoBody(total: nat)
    ensures Encode(total, []) + LAST_CHUNK == LAST_CHUNK == CRLF + Body([])
  {
    assert Body([]) == [48, 13, 10, 13, 10];
  }

  lemma BodyStep(chunks: seq<seq<byte>>)
    requires chunks != []
    ensures CRLF + Body(chunks) == CRLF + Hex(|chunks[0]|) + CRLF + (chunks[0] + (CRLF + Body(chunks[1..])))
    ensures Body(chunks) == [] + Hex(|chunks[0]|) + CRLF + (chunks[0] + (CRLF + Body(chunks[1..])))
  {
    hide Hex;
  }

  /** What is sent for some chunks is a body of the standard; for none there is a line end too many. */
  lemma SentBody(chunks: seq<seq<byte>>)
    requires (forall i :: 0 <= i < |chunks| ==> chunks[i] != []) && |Flatten(chunks)| < SIZE_MODULUS
    ensures Encode(0, chunks) + LAST_CHUNK == if chunks == [] then CRLF + Body([]) else Body(chunks)
  {
    hide Hex, Encode, Body, Flatten;
    if chunks == [] {
      NoBody(0);
    } else {
      FlattenFirst(chunks);
      EncodeBody(|chunks[0]|, chunks[1..]);
      EncodeStep(0, chunks, LAST_CHUNK);
      BodyStep(chunks);
    }
  }
}
