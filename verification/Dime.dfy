/** DIME attachments: how soap_putdime frames them and the record loop of soap_getdime reads them. */
module Dime {
  import opened Bytes
  import opened Transport
  import opened SoapOutput
  import opened SoapInput
  import opened ChunkedTransfer

  const SOAP_DIME_CF: nat := 1
  const SOAP_DIME_ME: nat := 2
  const SOAP_DIME_VERSION: nat := 8
  const SOAP_DIME_MEDIA: nat := 0x10

  /** A zero-terminated string, or no string at all. */
  datatype CString = Null | Chars(value: seq<byte>)

  /** struct soap_multipart, as far as DIME uses it.  Strings have no zero byte; options start with
      a 16-bit type and the 16-bit length of what follows. */
  datatype Attachment = Attachment(
    content: seq<byte>,
    id: CString,
    kind: CString,
    options: CString)

  // ---------- the format ----------

  /** -n & 3 */
  function Padding(n: nat): nat {
    (4 - n % 4) % 4
  }

  function Zeros(n: nat): (z: seq<byte>)
    ensures |z| == n
  {
    seq(n, _ => 0)
  }

  function Field(s: seq<byte>): seq<byte> {
    s + Zeros(Padding(|s|))
  }

  function Word(n: nat): (w: seq<byte>)
    ensures |w| == 2
  {
    [n / 0x100 % 0x100, n % 0x100]
  }

  function Long(n: nat): (w: seq<byte>)
    ensures |w| == 4
  {
    [n / 0x100_0000 % 0x100, n / 0x1_0000 % 0x100, n / 0x100 % 0x100, n % 0x100]
  }

  /** What is sent of a string that may be missing: at most 65535 bytes. */
  function Clipped(s: CString): seq<byte> {
    if s.Null? then [] else if |s.value| > 0xFFFF then s.value[..0xFFFF] else s.value
  }

  function Given(s: CString): seq<byte> {
    if s.Null? then [] else s.value
  }

  lemma ClippedLength(s: CString)
    ensures Clipped(s) <= Given(s) && |Clipped(s)| == Min(|Given(s)|, 65535)
  {
  }

  function Header(flags: nat, opt: nat, id: nat, kind: nat, size: nat): (h: seq<byte>)
    ensures |h| == 12
  {
    [SOAP_DIME_VERSION + flags % 8, flags / 0x10 % 0x10 * 0x10] + Word(opt) + Word(id) + Word(kind) + Long(size)
  }

  /** The bytes of a header: a version of 1, the flags, and four lengths, upper bytes first */
  lemma HeaderLayout(flags: nat, opt: nat, id: nat, kind: nat, size: nat)
    requires opt < 0x1_0000 && id < 0x1_0000 && kind < 0x1_0000 && size < 0x1_0000_0000
    ensures var h := Header(flags, opt, id, kind, size);
      && h[0] == 8 + flags % 8 && h[1] == flags / 16 % 16 * 16
      && h[2] as int * 256 + h[3] == opt && h[4] as int * 256 + h[5] == id && h[6] as int * 256 + h[7] == kind
      && ((h[8] as int * 256 + h[9]) * 256 + h[10]) * 256 + h[11] == size
  {
    LongBytes(size);
  }

  lemma LongBytes(n: nat)
    requires n < 0x1_0000_0000
    ensures var w := Long(n); ((w[0] as int * 256 + w[1]) * 256 + w[2]) * 256 + w[3] == n
  {
    Shifts(n);
    var a, b, c := n / 0x100_0000, n / 0x1_0000, n / 0x100;
    assert a % 0x100 == a && b == 256 * a + b % 256 && c == 256 * b + c % 256 && n == 256 * c + n % 256;
  }

  lemma Shifts(n: nat)
    requires n < 0x1_0000_0000
    ensures n / 0x100_0000 == n / 0x1_0000 / 0x100 < 0x100 && n / 0x1_0000 == n / 0x100 / 0x100
  {
  }

  function Record(a: Attachment, last: bool): seq<byte> {
    var flags := SOAP_DIME_VERSION + SOAP_DIME_MEDIA + if last then SOAP_DIME_ME else 0;
    Header(flags, |Given(a.options)|, |Clipped(a.id)|, |Clipped(a.kind)|, |a.content|)
    + Field(Given(a.options)) + Field(Clipped(a.id)) + Field(Clipped(a.kind)) + Field(a.content)
  }

  function Records(list: seq<Attachment>): seq<byte> {
    if list == [] then [] else Record(list[0], |list| == 1) + Records(list[1..])
  }

  /** The record of five bytes with an id and a type, the last one of its message */
  lemma RecordBytes()
    ensures Record(Attachment([1, 2, 3, 4, 5], Chars([97]), Chars([116, 47, 120]), Null), true) ==
      [0x0A, 0x10, 0, 0, 0, 1, 0, 3, 0, 0, 0, 5] + [] + [97, 0, 0, 0] + [116, 47, 120, 0] + [1, 2, 3, 4, 5, 0, 0, 0]
  {
    SmallFields();
    assert Header(0x1A, 0, 1, 3, 5) == [0x0A, 0x10, 0, 0, 0, 1, 0, 3, 0, 0, 0, 5];
    hide Header, Field;
  }

  lemma SmallFields()
    ensures Field([]) == [] && Field([97]) == [97, 0, 0, 0] && Field([116, 47, 120]) == [116, 47, 120, 0]
    ensures Field([1, 2, 3, 4, 5]) == [1, 2, 3, 4, 5, 0, 0, 0]
  {
  }

  /** A field is filled up with zeros to a multiple of four bytes, by less than four. */
  lemma FieldBytes(s: seq<byte>)
    ensures s <= Field(s) && |Field(s)| % 4 == 0 && |Field(s)| < |s| + 4
    ensures forall i :: |s| <= i < |Field(s)| ==> Field(s)[i] == 0
  {
  }

  // ---------- writing ----------

  /** soap_putdimefield */
  method PutDimeField(output: Output, s: seq<byte>)
    requires output.Valid()
    modifies output, output.buf, output.sock`output
    ensures output.Valid() && output.sent == old(output.sent) + Field(s)
  {
    output.SendRaw(s);
    output.SendRaw(Zeros(Padding(|s|)));
    ConcatAssociative(old(output.sent), s, Zeros(Padding(|s|)));
  }

  /** soap_putdimehdr; the length of options is read from their own header */
  method PutDimeHdr(output: Output, size: nat, id: CString, kind: CString,
                    options: CString, flags: nat)
    requires output.Valid() && GoodOptions(options)
    modifies output, output.buf, output.sock`output
    ensures output.Valid()
    ensures output.sent == old(output.sent)
      + (Header(flags, |Given(options)|, |Clipped(id)|, |Clipped(kind)|, size)
         + Field(Given(options)) + Field(Clipped(id)) + Field(Clipped(kind)))
  {
    hide Output.Valid, Field, Header;
    var optlen, idlen, typelen := 0, 0, 0;
    if options.Chars? {
      optlen := options.value[2] as int * 0x100 + options.value[3] as int + 4;
    }
    if id.Chars? {
      idlen := |id.value|;
      if idlen > 0xFFFF {
        idlen := 0xFFFF;
      }
    }
    if kind.Chars? {
      typelen := |kind.value|;
      if typelen > 0xFFFF {
        typelen := 0xFFFF;
      }
    }
    var tmp := Header(flags, optlen, idlen, typelen, size);
    output.SendRaw(tmp);
    PutDimeField(output, Given(options)[..optlen]);
    PutDimeField(output, Given(id)[..idlen]);
    PutDimeField(output, Given(kind)[..typelen]);
    ghost var o, i, t := Field(Given(options)), Field(Clipped(id)), Field(Clipped(kind));
    assert Given(options)[..optlen] == Given(options);
    assert Given(id)[..idlen] == Clipped(id) && Given(kind)[..typelen] == Clipped(kind);
    ConcatAssociative(old(output.sent), tmp, o);
    ConcatAssociative(old(output.sent), tmp + o, i);
    ConcatAssociative(old(output.sent), tmp + o + i, t);
  }

  /** options[2..4] is the length of the rest. */
  predicate GoodOptions(options: CString) {
    options.Chars? ==>
      && |options.value| >= 4
      && |options.value| == options.value[2] as int * 0x100 + options.value[3] as int + 4
  }

  /** soap_putdime, of attachments in memory */
  method PutDime(output: Output, list: seq<Attachment>)
    requires output.Valid() && forall i :: 0 <= i < |list| ==> GoodOptions(list[i].options)
    modifies output, output.buf, output.sock`output
    ensures output.Valid() && output.sent == old(output.sent) + Records(list)
  {
    hide Output.Valid, Field, Header, GoodOptions;
    ghost var all := output.sent + Records(list);
    var content := list;
    while content != []
      invariant output.Valid() && output.sent + Records(content) == all
      invariant forall i :: 0 <= i < |content| ==> GoodOptions(content[i].options)
      decreases |content|
    {
      var a := content[0];
      var flags := SOAP_DIME_VERSION + SOAP_DIME_MEDIA;
      if |content| == 1 {
        flags := flags + SOAP_DIME_ME;
      }
      ghost var before := output.sent;
      PutDimeHdr(output, |a.content|, a.id, a.kind, a.options, flags);
      PutDimeField(output, a.content);
      assert output.sent == before + Record(a, |content| == 1);
      ConcatAssociative(before, Record(a, |content| == 1), Records(content[1..]));
      content := content[1..];
    }
  }

  // ---------- reading ----------

  /** SOAP_OK, SOAP_EOF, SOAP_DIME_MISMATCH; Chunks stands for a record with the CF flag, whose
      continuation records are not part of this model. */
  datatype Status = Fine | Short | Mismatch | Chunks

  datatype Parsed<T> = Parsed(value: T, rest: seq<byte>) | Failed(status: Status)

  datatype Head = Head(flags: nat, size: nat, options: CString, id: CString, kind: CString)

  /** A field of n bytes and its padding; nothing at all for none. */
  function TakeField(s: seq<byte>, n: nat): (p: Parsed<CString>)
    ensures match p case Failed(e) => e == Short case Parsed(_, rest) => |rest| <= |s|
  {
    if n == 0 then Parsed(Null, s)
    else if |s| < n + Padding(n) then Failed(Short)
    else Parsed(Chars(s[..n]), s[n + Padding(n)..])
  }

  function Word16(a: byte, b: byte): nat {
    a * 0x100 as int + b
  }

  /** The size field; it is put together in a signed int, so the top bit spreads through a size_t. */
  function Size32(a: byte, b: byte, c: byte, d: byte): nat {
    (if a >= 0x80 then 0xFFFF_FFFF_0000_0000 else 0)
    + a as int * 0x100_0000 + b as int * 0x1_0000 + c as int * 0x100 + d as int
  }

  lemma SizeSign(a: byte, b: byte, c: byte, d: byte)
    ensures var n := ((a as int * 256 + b) * 256 + c) * 256 + d;
      Size32(a, b, c, d) == if n < 0x8000_0000 then n else n + 0x1_0000_0000_0000_0000 - 0x1_0000_0000
  {
  }

  function TakeHead(s: seq<byte>): (p: Parsed<Head>)
    ensures match p case Failed(e) => e in {Short, Mismatch} case Parsed(_, rest) => |rest| < |s|
  {
    if |s| < 12 then Failed(Short)
    else if s[0] / 8 != 1 then Failed(Mismatch)
    else match TakeField(s[12..], Word16(s[2], s[3]))
      case Failed(e) => Failed(e)
      case Parsed(options, r1) =>
        match TakeField(r1, Word16(s[4], s[5]))
        case Failed(e) => Failed(e)
        case Parsed(id, r2) =>
          match TakeField(r2, Word16(s[6], s[7]))
          case Failed(e) => Failed(e)
          case Parsed(kind, r3) =>
            Parsed(Head(s[0] % 8 + s[1] / 0x10 * 0x10, Size32(s[8], s[9], s[10], s[11]), options, id, kind), r3)
  }

  function Cons(a: Attachment, more: Parsed<seq<Attachment>>): Parsed<seq<Attachment>> {
    match more
    case Failed(e) => Failed(e)
    case Parsed(list, rest) => Parsed([a] + list, rest)
  }

  /** The records of a message up to the one with the ME flag. */
  function TakeRecords(s: seq<byte>): Parsed<seq<Attachment>>
    decreases |s|
  {
    match TakeHead(s)
    case Failed(e) => Failed(e)
    case Parsed(h, r) =>
      if h.flags % 2 == SOAP_DIME_CF then Failed(Chunks)
      else match TakeField(r, h.size)
        case Failed(e) => Failed(e)
        case Parsed(content, r') =>
          var a := Attachment(Given(content), h.id, h.kind, h.options);
          if h.flags / SOAP_DIME_ME % 2 == 1 then Parsed([a], r')
          else Cons(a, TakeRecords(r'))
  }

  lemma Shift(s: seq<byte>, rest: seq<byte>)
    requires rest != []
    ensures s + [rest[0]] + rest[1..] == s + rest
  {
  }

  /** struct soap_dime and the mode bit SOAP_ENC_DIME */
  class Reader {
    const input: Input
    var dime: bool
    var flags: nat
    var size: nat
    var id: CString
    var kind: CString
    var options: CString

    constructor (input: Input)
      ensures this.input == input && dime
    {
      this.input, dime := input, true;
      flags, size, id, kind, options := 0, 0, Null, Null, Null;
    }

    /** soap_getdimefield */
    method GetDimeField(n: nat) returns (p: CString, status: Status)
      requires input.Valid() && input.ahead == 0
      modifies input, input.buf, input.sock`input
      ensures match TakeField(old(input.Rest()), n)
              case Failed(e) => status == e
              case Parsed(v, rest) =>
                status == Fine && p == v && input.Valid() && input.ahead == 0 && input.Rest() == rest
    {
      hide Input.Valid, Input.Rest;
      p, status := Null, Fine;
      if n > 0 {
        ghost var start := input.Rest();
        var s: seq<byte> := [];
        for i := 0 to n
          invariant input.Valid() && input.ahead == 0
          invariant |s| == i && s + input.Rest() == start
        {
          ghost var rest := input.Rest();
          var c := input.Get1();
          if c == EOF {
            return Null, Short;
          }
          Shift(s, rest);
          s := s + [c];
        }
        assert start[..n] == s && start[n..] == input.Rest();
        p := Chars(s);
        var ok := input.Move(Padding(n));
        if !ok {
          return Null, Short;
        }
      }
    }

    /** soap_getdimehdr, outside a chunked record */
    method GetDimeHdr() returns (status: Status)
      requires dime && input.Valid() && input.ahead == 0
      modifies this, input, input.buf, input.sock`input
      ensures match TakeHead(old(input.Rest()))
              case Failed(e) => status == e
              case Parsed(h, rest) =>
                && status == Fine && h == Head(flags, size, options, id, kind)
                && dime == (h.flags / SOAP_DIME_ME % 2 != 1)
                && input.Valid() && input.ahead == 0 && input.Rest() == rest
    {
      hide Input.Valid, Input.Rest, TakeField;
      ghost var start := input.Rest();
      var tmp: seq<byte> := [];
      for i := 0 to 12
        invariant input.Valid() && input.ahead == 0 && i <= |start| && dime
        invariant |tmp| == i && tmp == start[..i] && input.Rest() == start[i..]
      {
        var c := input.GetChar();
        if c == EOF {
          return Short;
        }
        tmp := tmp + [c];
      }
      if tmp[0] / 8 * 8 != SOAP_DIME_VERSION {
        return Mismatch;
      }
      flags := tmp[0] % 8 + tmp[1] / 0x10 * 0x10;
      var optlen, idlen, typelen := Word16(tmp[2], tmp[3]), Word16(tmp[4], tmp[5]), Word16(tmp[6], tmp[7]);
      size := Size32(tmp[8], tmp[9], tmp[10], tmp[11]);
      options, status := GetDimeField(optlen);
      if status != Fine {
        return;
      }
      id, status := GetDimeField(idlen);
      if status != Fine {
        return;
      }
      kind, status := GetDimeField(typelen);
      if status != Fine {
        return;
      }
      if flags / SOAP_DIME_ME % 2 == 1 {
        dime := false;
      }
    }

    /** The record loop of soap_getdime. */
    method GetDime() returns (list: seq<Attachment>, status: Status)
      requires dime && input.Valid() && input.ahead == 0
      modifies this, input, input.buf, input.sock`input
      ensures match TakeRecords(old(input.Rest()))
              case Failed(e) => status == e
              case Parsed(v, rest) =>
                status == Fine && list == v && !dime && input.Valid() && input.ahead == 0 && input.Rest() == rest
    {
      hide Input.Valid, Input.Rest, TakeField, TakeHead;
      list := [];
      ghost var whole := TakeRecords(input.Rest());
      assert whole.Parsed? ==> [] + whole.value == whole.value;
      while dime
        invariant input.Valid() && input.ahead == 0
        invariant dime ==> match TakeRecords(input.Rest())
                           case Failed(e) => whole == Failed(e)
                           case Parsed(v, rest) => whole == Parsed(list + v, rest)
        invariant !dime ==> whole == Parsed(list, input.Rest())
        decreases dime, |input.Rest()|
      {
        status := GetDimeHdr();
        if status != Fine {
          return;
        }
        if flags % 2 == SOAP_DIME_CF {
          return [], Chunks;
        }
        ghost var before := list;
        var ptr;
        ptr, status := GetDimeField(size);
        if status != Fine {
          return;
        }
        list := list + [Attachment(Given(ptr), id, kind, options)];
        ghost var more := TakeRecords(input.Rest());
        if dime && more.Parsed? {
          ConcatAssociative(before, [Attachment(Given(ptr), id, kind, options)], more.value);
        }
      }
      status := Fine;
    }
  }

  // ---------- writing and reading agree ----------

  /** The field lengths that their places in the header can hold. */
  predicate Fits(a: Attachment) {
    && |Given(a.options)| <= 0xFFFF && |Given(a.id)| <= 0xFFFF && |Given(a.kind)| <= 0xFFFF
    && |a.content| < 0x8000_0000
  }

  /** An empty string is not told from a missing one. */
  function NonEmpty(s: seq<byte>): CString {
    if s == [] then Null else Chars(s)
  }

  function Normal(a: Attachment): Attachment {
    Attachment(a.content, NonEmpty(Given(a.id)), NonEmpty(Given(a.kind)), NonEmpty(Given(a.options)))
  }

  function Normals(list: seq<Attachment>): seq<Attachment> {
    if list == [] then [] else [Normal(list[0])] + Normals(list[1..])
  }

  /** A field and what follows it. */
  function FieldAnd(s: seq<byte>, rest: seq<byte>): seq<byte> {
    Field(s) + rest
  }

  lemma TakeFieldOf(s: seq<byte>, rest: seq<byte>)
    ensures TakeField(FieldAnd(s, rest), |s|) == Parsed(NonEmpty(s), rest)
  {
    var f := FieldAnd(s, rest);
    if s == [] {
      assert f == rest;
    } else {
      assert f[..|s|] == s && f[|s| + Padding(|s|)..] == rest;
    }
  }

  lemma HeaderBytes(flags: nat, opt: nat, id: nat, kind: nat, size: nat, rest: seq<byte>)
    requires opt <= 0xFFFF && id <= 0xFFFF && kind <= 0xFFFF && size < 0x8000_0000 && flags < 0x100
    ensures var s := Header(flags, opt, id, kind, size) + rest;
      && |s| >= 12 && s[12..] == rest && s[0] / 8 == 1
      && s[0] % 8 + s[1] / 0x10 * 0x10 == flags % 8 + flags / 0x10 * 0x10
      && Word16(s[2], s[3]) == opt && Word16(s[4], s[5]) == id && Word16(s[6], s[7]) == kind
  {
    var s := Header(flags, opt, id, kind, size) + rest;
    assert s[12..] == rest;
  }

  lemma HeaderSize(flags: nat, opt: nat, id: nat, kind: nat, size: nat, rest: seq<byte>)
    requires size < 0x8000_0000
    ensures var s := Header(flags, opt, id, kind, size) + rest;
      |s| >= 12 && Size32(s[8], s[9], s[10], s[11]) == size
  {
    var s := Header(flags, opt, id, kind, size) + rest;
    assert s[8..12] == Long(size);
    assert s[8] == s[8..12][0] && s[9] == s[8..12][1] && s[10] == s[8..12][2] && s[11] == s[8..12][3];
    LongDigits(size);
  }

  lemma LongDigits(n: nat)
    requires n < 0x8000_0000
    ensures n / 0x100_0000 % 0x100 < 0x80
    ensures n / 0x100_0000 % 0x100 * 0x100_0000 + n / 0x1_0000 % 0x100 * 0x1_0000
            + n / 0x100 % 0x100 * 0x100 + n % 0x100 == n
  {
    var a, b := n / 0x100, n / 0x1_0000;
    assert b == a / 0x100 && n / 0x100_0000 == b / 0x100;
  }

  /** A record and what follows it. */
  function RecordAnd(a: Attachment, last: bool, rest: seq<byte>): seq<byte> {
    var flags := SOAP_DIME_VERSION + SOAP_DIME_MEDIA + if last then SOAP_DIME_ME else 0;
    HeadAnd(flags, Given(a.options), Clipped(a.id), Clipped(a.kind), |a.content|, FieldAnd(a.content, rest))
  }

  function HeadAnd(flags: nat, o: seq<byte>, i: seq<byte>, k: seq<byte>, size: nat, rest: seq<byte>): seq<byte> {
    Header(flags, |o|, |i|, |k|, size) + FieldAnd(o, FieldAnd(i, FieldAnd(k, rest)))
  }

  lemma TakeHeadOf(flags: nat, o: seq<byte>, i: seq<byte>, k: seq<byte>, size: nat, rest: seq<byte>)
    requires |o| <= 0xFFFF && |i| <= 0xFFFF && |k| <= 0xFFFF && size < 0x8000_0000 && flags < 0x100
    ensures TakeHead(HeadAnd(flags, o, i, k, size, rest)) ==
            Parsed(Head(flags % 8 + flags / 0x10 * 0x10, size, NonEmpty(o), NonEmpty(i), NonEmpty(k)), rest)
  {
    var r3 := FieldAnd(k, rest);
    var r2 := FieldAnd(i, r3);
    var r1 := FieldAnd(o, r2);
    HeaderBytes(flags, |o|, |i|, |k|, size, r1);
    HeaderSize(flags, |o|, |i|, |k|, size, r1);
    TakeFieldOf(o, r2);
    TakeFieldOf(i, r3);
    TakeFieldOf(k, rest);
    hide TakeField, Header, FieldAnd, Size32, Word16;
  }

  /** The flags as the reader sees them. */
  function FlagsOf(last: bool): nat {
    SOAP_DIME_MEDIA + if last then SOAP_DIME_ME else 0
  }

  lemma FlagBits(last: bool)
    ensures FlagsOf(last) % 2 != SOAP_DIME_CF && (FlagsOf(last) / SOAP_DIME_ME % 2 == 1 <==> last)
  {
  }

  lemma TakeHeadOfRecord(a: Attachment, last: bool, rest: seq<byte>)
    requires Fits(a)
    ensures TakeHead(RecordAnd(a, last, rest)) ==
            Parsed(Head(FlagsOf(last), |a.content|,
                        NonEmpty(Given(a.options)), NonEmpty(Given(a.id)), NonEmpty(Given(a.kind))),
                   FieldAnd(a.content, rest))
  {
    ClippedGiven(a.id);
    ClippedGiven(a.kind);
    hide TakeHead, HeadAnd, FieldAnd, Clipped, Given, NonEmpty;
    var f := FieldAnd(a.content, rest);
    if last {
      TakeHeadOf(0x1A, Given(a.options), Given(a.id), Given(a.kind), |a.content|, f);
    } else {
      TakeHeadOf(0x18, Given(a.options), Given(a.id), Given(a.kind), |a.content|, f);
    }
  }

  lemma RecordReadBack(a: Attachment, last: bool, rest: seq<byte>)
    requires Fits(a)
    ensures TakeRecords(RecordAnd(a, last, rest)) ==
            if last then Parsed([Normal(a)], rest) else Cons(Normal(a), TakeRecords(rest))
  {
    TakeHeadOfRecord(a, last, rest);
    TakeFieldOf(a.content, rest);
    GivenNonEmpty(a.content);
    FlagBits(last);
    hide TakeHead, TakeField, RecordAnd, FieldAnd, TakeRecords, Cons, Given, NonEmpty, FlagsOf;
    var h := Head(FlagsOf(last), |a.content|,
                  NonEmpty(Given(a.options)), NonEmpty(Given(a.id)), NonEmpty(Given(a.kind)));
    TakeRecordsStep(RecordAnd(a, last, rest), h, FieldAnd(a.content, rest), NonEmpty(a.content), rest);
  }

  lemma ClippedGiven(s: CString)
    requires |Given(s)| <= 0xFFFF
    ensures Clipped(s) == Given(s)
  {
  }

  lemma TakeRecordsStep(s: seq<byte>, h: Head, r: seq<byte>, content: CString, rest: seq<byte>)
    requires TakeHead(s) == Parsed(h, r) && h.flags % 2 != SOAP_DIME_CF
    requires TakeField(r, h.size) == Parsed(content, rest)
    ensures var a := Attachment(Given(content), h.id, h.kind, h.options);
      TakeRecords(s) == if h.flags / SOAP_DIME_ME % 2 == 1 then Parsed([a], rest) else Cons(a, TakeRecords(rest))
  {
    hide TakeHead, TakeField, Cons, Given;
  }

  lemma GivenNonEmpty(s: seq<byte>)
    ensures Given(NonEmpty(s)) == s
  {
  }

  /** The records of a list and what follows them. */
  function RecordsAnd(list: seq<Attachment>, after: seq<byte>): seq<byte> {
    if list == [] then after else RecordAnd(list[0], |list| == 1, RecordsAnd(list[1..], after))
  }

  lemma RecordAndIsRecord(a: Attachment, last: bool, rest: seq<byte>)
    ensures RecordAnd(a, last, rest) == Record(a, last) + rest
  {
    hide Header, Field;
  }

  lemma {:induction false} RecordsAndIsRecords(list: seq<Attachment>, after: seq<byte>)
    ensures RecordsAnd(list, after) == Records(list) + after
  {
    hide RecordAnd, Record;
    if list != [] {
      RecordsAndIsRecords(list[1..], after);
      RecordAndIsRecord(list[0], |list| == 1, RecordsAnd(list[1..], after));
      ConcatAssociative(Record(list[0], |list| == 1), Records(list[1..]), after);
    }
  }

  /** What soap_putdime sends is read back as the same attachments, up to the last one. */
  lemma {:induction false} RecordsReadBack(list: seq<Attachment>, after: seq<byte>)
    requires list != [] && forall i :: 0 <= i < |list| ==> Fits(list[i])
    ensures TakeRecords(RecordsAnd(list, after)) == Parsed(Normals(list), after)
    decreases |list|
  {
    hide TakeRecords, RecordAnd, Fits, Normal;
    var a, more := list[0], list[1..];
    RecordReadBack(a, more == [], RecordsAnd(more, after));
    if more == [] {
      assert Normals(list) == [Normal(a)];
    } else {
      RecordsReadBack(more, after);
    }
  }

  // ---------- a message that is cut off ----------

  lemma FieldCut(s: seq<byte>, n: nat, k: nat)
    requires TakeField(s, n).Parsed? && k <= |s|
    ensures var p := TakeField(s, n);
      TakeField(s[..k], n) ==
        if k < |s| - |p.rest| then Failed(Short) else Parsed(p.value, p.rest[..k - (|s| - |p.rest|)])
  {
    var e := n + Padding(n);
    if n > 0 && k >= e {
      assert s[..k][..n] == s[..n] && s[..k][e..] == s[e..][..k - e];
    }
  }

  lemma HeadCut(s: seq<byte>, k: nat)
    requires TakeHead(s).Parsed? && k <= |s|
    ensures var p := TakeHead(s);
      TakeHead(s[..k]) ==
        if k < |s| - |p.rest| then Failed(Short) else Parsed(p.value, p.rest[..k - (|s| - |p.rest|)])
  {
    hide TakeField, Word16, Size32;
    var o, i, n := Word16(s[2], s[3]), Word16(s[4], s[5]), Word16(s[6], s[7]);
    if k >= 12 {
      assert s[..k][12..] == s[12..][..k - 12];
      var r0 := s[12..];
      FieldCut(r0, o, k - 12);
      var r1 := TakeField(r0, o).rest;
      var k1 := k - 12 - (|r0| - |r1|);
      if k1 >= 0 {
        FieldCut(r1, i, k1);
        var r2 := TakeField(r1, i).rest;
        var k2 := k1 - (|r1| - |r2|);
        if k2 >= 0 {
          FieldCut(r2, n, k2);
        }
      }
    }
  }

  /** A message that was read in full is an error when it is cut off anywhere before its end. */
  lemma {:induction false} CutOff(s: seq<byte>, k: nat)
    requires TakeRecords(s).Parsed? && k < |s| - |TakeRecords(s).rest|
    ensures TakeRecords(s[..k]) == Failed(Short)
    decreases |s|
  {
    hide TakeField, TakeHead;
    var p := TakeHead(s);
    HeadCut(s, k);
    var h, r := p.value, p.rest;
    if k >= |s| - |r| {
      var j := k - (|s| - |r|);
      FieldCut(r, h.size, j);
      var r' := TakeField(r, h.size).rest;
      if j >= |r| - |r'| && h.flags / SOAP_DIME_ME % 2 != 1 {
        CutOff(r', j - (|r| - |r'|));
      }
    }
  }

  /** So of what is sent for a list every part that is cut off in front of the last record's end is refused. */
  lemma SentCutOff(list: seq<Attachment>, k: nat)
    requires list != [] && (forall i :: 0 <= i < |list| ==> Fits(list[i])) && k < |Records(list)|
    ensures TakeRecords(Records(list)[..k]) == Failed(Short)
  {
    hide TakeRecords, Records, RecordsAnd, Fits, Normals;
    RecordsReadBack(list, []);
    RecordsAndIsRecords(list, []);
    assert Records(list) + [] == Records(list);
    CutOff(Records(list), k);
  }

  /** Attachments through a connection. */
  method RoundTrip(list: seq<Attachment>, after: seq<byte>, mode: IoMode) returns (read: seq<Attachment>)
    requires mode != Length && list != []
    requires forall i :: 0 <= i < |list| ==> Fits(list[i]) && GoodOptions(list[i].options)
    ensures read == Normals(list)
  {
    hide Input.Valid, Input.Rest, Output.Valid, GoodOptions, Fits, Records, RecordsAnd, TakeRecords, Normals;
    RecordsReadBack(list, after);
    RecordsAndIsRecords(list, after);
    var line := new Socket([]);
    var output := new Output(line, mode);
    PutDime(output, list);
    output.SendRaw(after);
    assert output.sent == Records(list) + after;
    var input := Deliver(output);
    var reader := new Reader(input);
    var status;
    read, status := reader.GetDime();
  }
}
