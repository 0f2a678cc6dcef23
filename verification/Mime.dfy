/** MIME attachments, and the length that is announced for a message with attachments. */
module Mime {
  import opened Bytes
  import opened Transport
  import opened SoapOutput
  import opened SoapInput
  import opened ChunkedTransfer
  import opened BlockStore
  import opened Dime

  /** struct soap_multipart, as far as MIME uses it; `encoding` is the name of the encoding. */
  datatype Part = Part(
    content: seq<byte>,
    kind: CString,
    encoding: CString,
    id: CString,
    location: CString,
    description: CString)

  const DASHES: seq<byte> := [45, 45]
  const CONTENT_TYPE: seq<byte> := [67, 111, 110, 116, 101, 110, 116, 45, 84, 121, 112, 101, 58, 32]
  const CONTENT_TRANSFER_ENCODING: seq<byte> :=
    [67, 111, 110, 116, 101, 110, 116, 45, 84, 114, 97, 110, 115, 102, 101, 114, 45,
     69, 110, 99, 111, 100, 105, 110, 103, 58, 32]
  const CONTENT_ID: seq<byte> := [67, 111, 110, 116, 101, 110, 116, 45, 73, 68, 58, 32]
  const CONTENT_LOCATION: seq<byte> :=
    [67, 111, 110, 116, 101, 110, 116, 45, 76, 111, 99, 97, 116, 105, 111, 110, 58, 32]
  const CONTENT_DESCRIPTION: seq<byte> :=
    [67, 111, 110, 116, 101, 110, 116, 45, 68, 101, 115, 99, 114, 105, 112, 116, 105, 111, 110, 58, 32]

  // ---------- writing ----------

  /** A header line, if there is something to say. */
  function HeaderLine(name: seq<byte>, s: CString): seq<byte> {
    if s.Null? then [] else name + s.value + CRLF
  }

  function PartHeader(boundary: seq<byte>, p: Part): seq<byte> {
    (CRLF + DASHES) + boundary + CRLF
    + HeaderLine(CONTENT_TYPE, p.kind)
    + HeaderLine(CONTENT_TRANSFER_ENCODING, p.encoding)
    + HeaderLine(CONTENT_ID, p.id)
    + HeaderLine(CONTENT_LOCATION, p.location)
    + HeaderLine(CONTENT_DESCRIPTION, p.description)
    + CRLF
  }

  function Parts(boundary: seq<byte>, list: seq<Part>): seq<byte> {
    if list == [] then (CRLF + DASHES) + boundary + DASHES
    else PartHeader(boundary, list[0]) + list[0].content + Parts(boundary, list[1..])
  }

  /** The names of the headers */
  lemma HeaderNames()
    ensures CONTENT_TYPE == Ascii("Content-Type: ") && CONTENT_ID == Ascii("Content-ID: ")
    ensures CONTENT_LOCATION == Ascii("Content-Location: ")
  {
  }

  lemma DescriptionName()
    ensures CONTENT_DESCRIPTION == Ascii("Content-") + Ascii("Description: ")
  {
  }

  lemma EncodingName()
    ensures CONTENT_TRANSFER_ENCODING == Ascii("Content-") + Ascii("Transfer-") + Ascii("Encoding: ")
  {
  }

  /** A part with all headers: the delimiter, a line for each, an empty line, and the content; and the
      closing delimiter */
  lemma PartBytes(boundary: seq<byte>, content: seq<byte>, kind: seq<byte>, encoding: seq<byte>, id: seq<byte>,
                  location: seq<byte>, description: seq<byte>)
    ensures Parts(boundary,
                  [Part(content, Chars(kind), Chars(encoding), Chars(id), Chars(location), Chars(description))])
      == [13, 10, 45, 45] + boundary + [13, 10]
         + (CONTENT_TYPE + kind + [13, 10])
         + (CONTENT_TRANSFER_ENCODING + encoding + [13, 10])
         + (CONTENT_ID + id + [13, 10])
         + (CONTENT_LOCATION + location + [13, 10])
         + (CONTENT_DESCRIPTION + description + [13, 10])
         + [13, 10] + content + ([13, 10, 45, 45] + boundary + [45, 45])
  {
    assert CRLF + DASHES == [13, 10, 45, 45];
  }

  /** And of one without */
  lemma BarePart(boundary: seq<byte>, content: seq<byte>)
    ensures Parts(boundary, [Part(content, Null, Null, Null, Null, Null)]) ==
      [13, 10, 45, 45] + boundary + [13, 10, 13, 10] + content + ([13, 10, 45, 45] + boundary + [45, 45])
  {
  }

  /** soap_send3 */
  method Send3(output: Output, a: seq<byte>, b: seq<byte>, c: seq<byte>)
    requires output.Valid()
    modifies output, output.buf, output.sock`output
    ensures output.Valid() && output.sent == old(output.sent) + (a + b + c)
  {
    output.SendRaw(a);
    output.SendRaw(b);
    output.SendRaw(c);
    ConcatAssociative(old(output.sent), a, b);
    ConcatAssociative(old(output.sent), a + b, c);
  }

  method SendLine(output: Output, name: seq<byte>, s: CString)
    requires output.Valid()
    modifies output, output.buf, output.sock`output
    ensures output.Valid() && output.sent == old(output.sent) + HeaderLine(name, s)
  {
    if s.Chars? {
      Send3(output, name, s.value, CRLF);
    } else {
      assert output.sent + [] == output.sent;
    }
  }

  /** soap_putmimehdr */
  method PutMimeHdr(output: Output, boundary: seq<byte>, p: Part)
    requires output.Valid()
    modifies output, output.buf, output.sock`output
    ensures output.Valid() && output.sent == old(output.sent) + PartHeader(boundary, p)
  {
    hide Output.Valid, HeaderLine;
    ghost var before := output.sent;
    ghost var head := (CRLF + DASHES) + boundary + CRLF;
    Send3(output, CRLF + DASHES, boundary, CRLF);
    SendLine(output, CONTENT_TYPE, p.kind);
    ConcatAssociative(before, head, HeaderLine(CONTENT_TYPE, p.kind));
    head := head + HeaderLine(CONTENT_TYPE, p.kind);
    SendLine(output, CONTENT_TRANSFER_ENCODING, p.encoding);
    ConcatAssociative(before, head, HeaderLine(CONTENT_TRANSFER_ENCODING, p.encoding));
    head := head + HeaderLine(CONTENT_TRANSFER_ENCODING, p.encoding);
    SendLine(output, CONTENT_ID, p.id);
    ConcatAssociative(before, head, HeaderLine(CONTENT_ID, p.id));
    head := head + HeaderLine(CONTENT_ID, p.id);
    SendLine(output, CONTENT_LOCATION, p.location);
    ConcatAssociative(before, head, HeaderLine(CONTENT_LOCATION, p.location));
    head := head + HeaderLine(CONTENT_LOCATION, p.location);
    SendLine(output, CONTENT_DESCRIPTION, p.description);
    ConcatAssociative(before, head, HeaderLine(CONTENT_DESCRIPTION, p.description));
    head := head + HeaderLine(CONTENT_DESCRIPTION, p.description);
    output.SendRaw(CRLF);
    ConcatAssociative(before, head, CRLF);
  }

  /** soap_putmime, of attachments in memory */
  method PutMime(output: Output, boundary: seq<byte>, list: seq<Part>)
    requires output.Valid()
    modifies output, output.buf, output.sock`output
    ensures output.Valid() && output.sent == old(output.sent) + Parts(boundary, list)
  {
    hide Output.Valid, PartHeader;
    ghost var all := output.sent + Parts(boundary, list);
    var content := list;
    while content != []
      invariant output.Valid() && output.sent + Parts(boundary, content) == all
      decreases |content|
    {
      var p := content[0];
      ghost var before, rest := output.sent, Parts(boundary, content[1..]);
      PutMimeHdr(output, boundary, p);
      output.SendRaw(p.content);
      ConcatAssociative(before, PartHeader(boundary, p), p.content);
      ConcatAssociative(before, PartHeader(boundary, p) + p.content, rest);
      content := content[1..];
    }
    Send3(output, CRLF + DASHES, boundary, DASHES);
  }

  // ---------- counting ----------

  /** The mode bits SOAP_ENC_DIME, SOAP_ENC_MTOM and SOAP_ENC_MIME. */
  datatype Encoding = Encoding(dime: bool, mtom: bool, mime: bool)

  /** (n + 3) & ~3 */
  function Padded(n: nat): nat {
    (n + 3) / 4 * 4
  }

  /** soap_count_attachments: what the attachments add to the count */
  method CountAttachments(count0: nat, mode: Encoding, dime: seq<Attachment>, boundary: CString, mime: seq<Part>)
    returns (count: nat)
    requires forall i :: 0 <= i < |dime| ==> GoodOptions(dime[i].options)
    ensures count == count0
      + (if mode.dime && !mode.mtom then DimeCount(dime) else 0)
      + (if mode.mime && boundary.Chars? then MimeCount(|boundary.value|, mime) else 0)
  {
    count := count0;
    if mode.dime && !mode.mtom {
      count := CountDime(count, dime);
    }
    if mode.mime && boundary.Chars? {
      count := CountMime(count, boundary.value, mime);
    }
  }

  method CountDime(count0: nat, dime: seq<Attachment>) returns (count: nat)
    requires forall i :: 0 <= i < |dime| ==> GoodOptions(dime[i].options)
    ensures count == count0 + DimeCount(dime)
  {
    hide Padded, DimeCount, GoodOptions;
    count := count0;
    DimeCountFirst(dime[|dime|..]);
    assert dime[0..] == dime;
    for i := 0 to |dime|
      invariant count + DimeCount(dime[i..]) == count0 + DimeCount(dime)
    {
      var a := dime[i];
      DimeCountFirst(dime[i..]);
      assert dime[i..][0] == a && dime[i..][1..] == dime[i + 1..];
      OptionsLength(a.options);
      count := count + 12 + Padded(|a.content|);
      if a.id.Chars? {
        count := count + Padded(|a.id.value|);
      }
      if a.kind.Chars? {
        count := count + Padded(|a.kind.value|);
      }
      if a.options.Chars? {
        count := count + (a.options.value[2] as int * 0x100 + a.options.value[3] as int + 7) / 4 * 4;
      }
    }
  }

  lemma DimeCountFirst(list: seq<Attachment>)
    ensures DimeCount(list) == if list == [] then 0 else
      12 + Padded(|list[0].content|) + Padded(|Given(list[0].id)|) + Padded(|Given(list[0].kind)|)
      + Padded(|Given(list[0].options)|) + DimeCount(list[1..])
    ensures Padded(0) == 0
  {
  }

  /** The length in the options says how long they are. */
  lemma OptionsLength(o: CString)
    requires GoodOptions(o)
    ensures o.Chars? ==>
      |o.value| >= 4 && (o.value[2] as int * 0x100 + o.value[3] as int + 7) / 4 * 4 == Padded(|o.value|)
  {
  }

  method CountMime(count0: nat, boundary: seq<byte>, mime: seq<Part>) returns (count: nat)
    ensures count == count0 + MimeCount(|boundary|, mime)
  {
    count := count0;
    var n := |boundary|;
    for i := 0 to |mime|
      invariant count + MimeCount(n, mime[i..]) == count0 + MimeCount(n, mime)
    {
      var p := mime[i];
      count := count + 6 + n;
      if p.kind.Chars? {
        count := count + 16 + |p.kind.value|;
      }
      if p.encoding.Chars? {
        count := count + 29 + |p.encoding.value|;
      }
      if p.id.Chars? {
        count := count + 14 + |p.id.value|;
      }
      if p.location.Chars? {
        count := count + 20 + |p.location.value|;
      }
      if p.description.Chars? {
        count := count + 23 + |p.description.value|;
      }
      count := count + 2 + |p.content|;
    }
    count := count + 6 + n;
  }

  function Counted(s: CString, name: nat): nat {
    if s.Null? then 0 else name + |s.value|
  }

  function DimeCount(list: seq<Attachment>): nat {
    if list == [] then 0
    else
      var a := list[0];
      12 + Padded(|a.content|) + Padded(|Given(a.id)|) + Padded(|Given(a.kind)|) + Padded(|Given(a.options)|)
      + DimeCount(list[1..])
  }

  function MimeCount(n: nat, list: seq<Part>): nat {
    if list == [] then 6 + n
    else
      var p := list[0];
      6 + n + Counted(p.kind, 16) + Counted(p.encoding, 29) + Counted(p.id, 14) + Counted(p.location, 20)
      + Counted(p.description, 23) + 2 + |p.content| + MimeCount(n, list[1..])
  }

  // ---------- the announced length is the length ----------

  lemma {:induction false} MimeCountIsExact(boundary: seq<byte>, list: seq<Part>)
    ensures MimeCount(|boundary|, list) == |Parts(boundary, list)|
  {
    if list != [] {
      MimeCountIsExact(boundary, list[1..]);
    }
  }

  /** The strings whose padded length does not change when they are clipped. */
  predicate Clippable(a: Attachment) {
    |Given(a.id)| <= 0x1_0000 && |Given(a.kind)| <= 0x1_0000
  }

  lemma RecordLength(a: Attachment, last: bool)
    ensures |Record(a, last)| ==
      12 + Padded(|a.content|) + Padded(|Clipped(a.id)|) + Padded(|Clipped(a.kind)|) + Padded(|Given(a.options)|)
  {
    FieldLength(a.content);
    FieldLength(Clipped(a.id));
    FieldLength(Clipped(a.kind));
    FieldLength(Given(a.options));
    hide Field, Padded;
  }

  lemma FieldLength(s: seq<byte>)
    ensures |Field(s)| == Padded(|s|)
  {
  }

  lemma ClippedPadded(s: CString)
    ensures Padded(|Clipped(s)|) <= Padded(|Given(s)|)
    ensures Padded(|Clipped(s)|) == Padded(|Given(s)|) <==> |Given(s)| <= 0x1_0000
  {
  }

  /** The count is never too small, and it is exact if and only if no id or type is longer than
      65536 bytes: from there on the length is clipped in the header, but not in the count. */
  lemma {:induction false} DimeCountIsExact(list: seq<Attachment>)
    ensures DimeCount(list) >= |Records(list)|
    ensures DimeCount(list) == |Records(list)| <==> forall i :: 0 <= i < |list| ==> Clippable(list[i])
  {
    if list != [] {
      hide Record, Padded, Clipped, Given;
      var a, more := list[0], list[1..];
      RecordLength(a, |list| == 1);
      ClippedPadded(a.id);
      ClippedPadded(a.kind);
      DimeCountIsExact(more);
      assert forall i :: 0 < i < |list| ==> list[i] == more[i - 1];
    }
  }

  /** The mode in which soap_begin_count has the message counted; `before` is what was set. */
  function CountMode(omode: Encoding, before: Encoding): Encoding {
    var dime := omode.dime || before.dime;
    if omode.mtom && dime then Encoding(dime, true, true) else Encoding(dime, false, omode.mime)
  }

  /** The mode in which soap_begin_send has it sent, after it was counted: with MTOM the DIME
      attachments are sent as MIME parts. */
  function SendMode(omode: Encoding, counted: Encoding): Encoding {
    var dime := omode.dime || counted.dime;
    if omode.mtom && dime then Encoding(false, true, true) else Encoding(dime, false, omode.mime)
  }

  /** DIME records are counted if and only if they are sent, and so are MIME parts. */
  lemma CountedIsSent(omode: Encoding, before: Encoding)
    ensures var m := CountMode(omode, before);
      && (SendMode(omode, m).dime <==> m.dime && !m.mtom)
      && (SendMode(omode, m).mime <==> m.mime)
      && (m.dime <==> omode.dime || before.dime)
      && (m.mime <==> omode.mime || (omode.mtom && (omode.dime || before.dime)))
      && (m.mtom <==> omode.mtom && (omode.dime || before.dime))
  {
  }

  /** When the announced length of the attachments is the length they are sent in: id and type of a
      DIME record that is sent may have 65536 bytes. */
  predicate Countable(omode: Encoding, before: Encoding, dime: seq<Attachment>) {
    (omode.dime || before.dime) && !omode.mtom ==> forall i :: 0 <= i < |dime| ==> Clippable(dime[i])
  }

  /** Both passes over a message with attachments: the length is counted first, then everything is
      sent.  The two lengths agree exactly for what is Countable. */
  method TwoPasses(body: seq<byte>, omode: Encoding, before: Encoding, dime: seq<Attachment>, boundary: CString,
                   mime: seq<Part>, io: IoMode)
    returns (announced: nat, sent: nat)
    requires io != Length && forall i :: 0 <= i < |dime| ==> GoodOptions(dime[i].options)
    ensures announced == sent <==> Countable(omode, before, dime)
    ensures announced >= sent
  {
    hide Output.Valid, Records, Parts, GoodOptions, DimeCount, MimeCount, Clippable;
    var line := new Socket([]);
    var mode := CountMode(omode, before);
    var counter := new Output(line, Length);
    counter.SendRaw(body);
    announced := CountAttachments(counter.Count(), mode, dime, boundary, mime);
    DimeCountIsExact(dime);

    mode := SendMode(omode, mode);
    var output := new Output(line, io);
    output.SendRaw(body);
    if mode.dime {
      PutDime(output, dime);
    }
    if mode.mime && boundary.Chars? {
      PutMime(output, boundary.value, mime);
      MimeCountIsExact(boundary.value, mime);
    }
    ghost var all := output.sent;
    var input := Deliver(output);
    var received := ReadAll(input);
    sent := |received|;
  }

  /** An id of 65537 bytes: more is announced than is sent. */
  method LongId(a: Attachment, io: IoMode) returns (announced: nat, sent: nat)
    requires |Given(a.id)| == 0x1_0001 && GoodOptions(a.options) && io != Length
    ensures announced > sent
  {
    hide Given;
    assert [a][0] == a;
    var dime := Encoding(true, false, false);
    announced, sent := TwoPasses([], dime, dime, [a], Null, [], io);
  }

  // ---------- reading ----------

  /** The delimiter in front of the next part, without its carriage return; a boundary of more than
      1020 bytes is cut. */
  function Pattern(boundary: seq<byte>): (p: seq<byte>)
    ensures 3 <= |p| <= 1023
  {
    [LF, 45, 45] + if |boundary| > 1020 then boundary[..1020] else boundary
  }

  /** A delimiter starts at position k of s. */
  predicate DelimiterAt(s: seq<byte>, p: seq<byte>, k: nat)
    requires k <= |s|
  {
    [CR] + p <= s[k..]
  }

  /** The position of the first delimiter from k on, or the length of s. */
  function FirstDelimiter(s: seq<byte>, p: seq<byte>, k: nat): (f: nat)
    requires k <= |s|
    ensures k <= f <= |s|
    decreases |s| - k
  {
    if k == |s| || DelimiterAt(s, p, k) then k else FirstDelimiter(s, p, k + 1)
  }

  lemma {:induction false} NoneBefore(s: seq<byte>, p: seq<byte>, k: nat, k': nat)
    requires k <= k' <= |s|
    requires forall i :: k <= i < k' ==> !DelimiterAt(s, p, i)
    ensures FirstDelimiter(s, p, k) == FirstDelimiter(s, p, k')
    decreases k' - k
  {
    if k < k' {
      NoneBefore(s, p, k + 1, k');
    }
  }

  lemma NoReturnNoDelimiter(s: seq<byte>, p: seq<byte>, k: nat)
    requires k < |s| && s[k] != CR
    ensures !DelimiterAt(s, p, k)
  {
    assert s[k..][0] == s[k];
  }

  lemma DelimiterHas(s: seq<byte>, p: seq<byte>, k: nat, j: nat)
    requires k <= |s| && DelimiterAt(s, p, k) && j < |p|
    ensures k + 1 + j < |s| && s[k + 1 + j] == p[j]
  {
    assert s[k..][1 + j] == ([CR] + p)[1 + j] == p[j];
  }

  /** What the scan looks for is the delimiter line of section 5.1.1 of RFC 2046, and the first one. */
  lemma FirstLine(s: seq<byte>, boundary: seq<byte>)
    requires |boundary| <= 1020
    ensures var f := FirstDelimiter(s, Pattern(boundary), 0);
      && (f < |s| ==> [13, 10, 45, 45] + boundary <= s[f..])
      && forall k :: 0 <= k < f ==> !([13, 10, 45, 45] + boundary <= s[k..])
  {
    hide Pattern, DelimiterAt, FirstDelimiter;
    FirstIsFirst(s, Pattern(boundary), 0);
    forall k | 0 <= k <= |s|
      ensures DelimiterAt(s, Pattern(boundary), k) <==> [13, 10, 45, 45] + boundary <= s[k..]
    {
      DelimiterLine(s, boundary, k);
    }
  }

  lemma DelimiterLine(s: seq<byte>, boundary: seq<byte>, k: nat)
    requires |boundary| <= 1020 && k <= |s|
    ensures DelimiterAt(s, Pattern(boundary), k) <==> [13, 10, 45, 45] + boundary <= s[k..]
  {
    assert [CR] + Pattern(boundary) == [13, 10, 45, 45] + boundary;
  }

  lemma {:induction false} FirstIsFirst(s: seq<byte>, p: seq<byte>, k: nat)
    requires k <= |s|
    ensures var f := FirstDelimiter(s, p, k);
      (f < |s| ==> DelimiterAt(s, p, f)) && forall i :: k <= i < f ==> !DelimiterAt(s, p, i)
    decreases |s| - k
  {
    hide DelimiterAt;
    if k < |s| && !DelimiterAt(s, p, k) {
      FirstIsFirst(s, p, k + 1);
    }
  }

  /** A delimiter that breaks off after j bytes of the pattern: neither it nor what was read of it
      contains the start of one, except for the last byte if that is a carriage return. */
  lemma BrokenOff(s: seq<byte>, p: seq<byte>, k: nat, j: nat, k': nat)
    requires Plain(p) && j < |p| && k + 1 + j < |s| && s[k] == CR
    requires s[k + 1..k + 1 + j] == p[..j] && s[k + 1 + j] != p[j]
    requires k' == if s[k + 1 + j] == CR then k + 1 + j else k + 2 + j
    ensures FirstDelimiter(s, p, k) == FirstDelimiter(s, p, k')
  {
    if DelimiterAt(s, p, k) {
      DelimiterHas(s, p, k, j);
    }
    forall i | k < i < k'
      ensures !DelimiterAt(s, p, i)
    {
      if i < k + 1 + j {
        assert s[i] == s[k + 1..k + 1 + j][i - k - 1] == p[..j][i - k - 1] == p[i - k - 1];
      }
      NoReturnNoDelimiter(s, p, i);
    }
    NoneBefore(s, p, k, k');
  }

  lemma Found(s: seq<byte>, p: seq<byte>, k: nat)
    requires k + 1 + |p| <= |s| && s[k] == CR && s[k + 1..k + 1 + |p|] == p
    ensures FirstDelimiter(s, p, k) == k
  {
    assert s[k..][..1 + |p|] == [CR] + p;
  }

  /** What section 5.1.1 of RFC 2046 allows in a boundary, and more. */
  predicate Plain(p: seq<byte>) {
    forall i :: 0 <= i < |p| ==> 0 < p[i] < 128 && p[i] != CR
  }

  lemma PlainPattern(boundary: seq<byte>)
    requires Plain(boundary)
    ensures Plain(Pattern(boundary))
  {
  }

  /** How many zero bytes are in front. */
  function Zeros(s: seq<byte>): (n: nat)
    ensures n <= |s|
  {
    if s == [] || s[0] != 0 then 0 else 1 + Zeros(s[1..])
  }

  /** The position behind a delimiter at f.  Zero bytes behind it belong to it: they are compared with
      the zeros the buffer is filled up with. */
  function Past(r: seq<byte>, p: seq<byte>, f: nat): (e: nat)
    ensures e >= f + 1 + |p|
  {
    var e := f + 1 + |p|;
    if e <= |r| then e + Zeros(r[e..]) else e
  }

  lemma {:induction false} ZerosMore(s: seq<byte>, n: nat)
    requires n <= |s| && forall i :: 0 <= i < n ==> s[i] == 0
    ensures Zeros(s) == n + Zeros(s[n..])
    decreases n
  {
    if n > 0 {
      ZerosMore(s[1..], n - 1);
      assert s[1..][n - 1..] == s[n..];
    }
  }

  /** Fills msgbuf with the pattern and zeros. */
  method FillPattern(msgbuf: array<byte>, p: seq<byte>)
    requires msgbuf.Length == 1024 && |p| <= 1023
    modifies msgbuf
    ensures msgbuf[..|p|] == p && forall i :: |p| <= i < 1024 ==> msgbuf[i] == 0
  {
    forall i | 0 <= i < 1024 {
      msgbuf[i] := 0;
    }
    CopyInto(msgbuf, 0, p);
    assert forall i :: |p| <= i < 1024 ==> msgbuf[i] == msgbuf[|p|..][i - |p|];
  }

  lemma WholePattern(r: seq<byte>, p: seq<byte>, j: nat)
    requires j <= |p| && j <= |r| && r[..j] == p[..j]
    ensures j == |p| ==> p <= r
    ensures j < |p| && j < |r| && r[j] != p[j] ==> !(p <= r)
    ensures j == |r| && j < |p| ==> !(p <= r)
  {
    assert j == |p| ==> p[..j] == p;
    assert p <= r ==> forall i :: 0 <= i < |p| ==> r[i] == p[i];
  }

  /** After a carriage return: compares the input with the pattern.  On success c is the byte after
      the delimiter and the zeros behind it.  Otherwise the bytes read are what `msgbuf` begins with:
      all of them, or all but the last one if that is another carriage return. */
  method MatchPattern(input: Input, msgbuf: array<byte>, p: seq<byte>) returns (c: int, matched: bool, j: nat)
    requires input.Valid() && input.ahead == 0 && msgbuf.Length == 1024 && msgbuf != input.buf
    requires |p| <= 1023 && Plain(p)
    requires p <= input.Rest() ==> |p| + Zeros(input.Rest()[|p|..]) <= 1023
    modifies input, input.buf, input.sock`input, msgbuf
    ensures var r := old(input.Rest());
      && (c == EOF <==> if p <= r then |r| == |p| + Zeros(r[|p|..]) else r <= p)
      && (c != EOF ==>
            && input.Valid() && input.ahead == 0 && j < |r| && c == r[j] && input.Rest() == r[j + 1..]
            && (matched <==> p <= r)
            && (matched ==> j == |p| + Zeros(r[|p|..]))
            && (!matched ==> j < |p| && r[..j] == p[..j] && r[j] != p[j] && msgbuf[..j] == p[..j] && msgbuf[j] == c))
  {
    hide Input.Valid, Input.Rest, Zeros;
    FillPattern(msgbuf, p);
    ghost var r := input.Rest();
    j := 0;
    c := input.GetChar();
    while c == SignedChar(msgbuf[j])
      invariant 0 <= j <= 1023 && j <= |r|
      invariant msgbuf[..|p|] == p && forall i :: |p| <= i < 1024 ==> msgbuf[i] == 0
      invariant if j <= |p| then r[..j] == p[..j] else p <= r && forall i :: |p| <= i < j ==> r[i] == 0
      invariant c == EOF <==> j == |r|
      invariant c != EOF ==> input.Valid() && input.ahead == 0 && c == r[j] && input.Rest() == r[j + 1..]
      decreases |r| - j
    {
      if j < |p| {
        assert msgbuf[j] == p[j];
      } else {
        if j == |p| {
          WholePattern(r, p, j);
        }
        ZerosBehind(r, |p|, j + 1);
      }
      j := j + 1;
      c := input.GetChar();
    }
    matched := false;
    if j >= |p| {
      if j == |p| {
        WholePattern(r, p, j);
      }
      ZerosBehind(r, |p|, j);
      ZerosEnd(r[j..]);
    } else {
      WholePattern(r, p, j);
      assert msgbuf[j] == p[j];
    }
    if c == EOF {
      assert r == r[..j];
      return;
    }
    if msgbuf[j] == 0 {
      matched := true;
      return;
    }
    msgbuf[j] := c;
    assert msgbuf[..j] == p[..j];
  }

  lemma ZerosBehind(r: seq<byte>, n: nat, j: nat)
    requires n <= j <= |r| && forall i :: n <= i < j ==> r[i] == 0
    ensures Zeros(r[n..]) == j - n + Zeros(r[j..])
  {
    ZerosMore(r[n..], j - n);
    assert r[n..][j - n..] == r[j..];
  }

  lemma ZerosEnd(s: seq<byte>)
    ensures s == [] || s[0] != 0 ==> Zeros(s) == 0
  {
  }

  /** What is still to be stored: the bytes pushed back, and the input from position k on, whose
      carriage return has been read already if `flag`. */
  ghost predicate Reached(r: seq<byte>, k: nat, flag: bool, rest: seq<byte>) {
    && k + (if flag then 1 else 0) <= |r|
    && (flag ==> r[k] == CR)
    && rest == r[k + (if flag then 1 else 0)..]
  }

  /** A carriage return and the whole pattern: that is the first delimiter. */
  lemma AfterReturn(r: seq<byte>, p: seq<byte>, k: nat)
    requires k < |r| && r[k] == CR
    ensures p <= r[k + 1..] ==> FirstDelimiter(r, p, k) == k && k + 1 + |p| <= |r|
  {
    if p <= r[k + 1..] {
      assert r[k + 1..][..|p|] == r[k + 1..k + 1 + |p|];
      Found(r, p, k);
    }
  }

  lemma PastHere(r: seq<byte>, p: seq<byte>, k: nat)
    requires k < |r| && r[k] == CR
    ensures p <= r[k + 1..] ==> Past(r, p, k) == k + 1 + |p| + Zeros(r[k + 1..][|p|..])
    ensures |r| - k - 1 < |p| ==> |r| <= Past(r, p, FirstDelimiter(r, p, k))
  {
    hide Zeros;
    if p <= r[k + 1..] {
      assert r[k + 1..][|p|..] == r[k + 1 + |p|..];
    }
    var f := FirstDelimiter(r, p, k);
  }

  /** How far a delimiter that broke off after j bytes was read. */
  ghost function Resume(r: seq<byte>, k: nat, j: nat): (k': nat)
    requires k + 1 + j < |r|
  {
    if r[k + 1 + j] == CR then k + 1 + j else k + 2 + j
  }

  /** What is pushed back then, and stored after the carriage return, is what was read. */
  lemma PushedBack(r: seq<byte>, p: seq<byte>, k: nat, j: nat, back: seq<byte>)
    requires Plain(p) && j < |p| && k + 1 + j < |r| && r[k] == CR
    requires r[k + 1..][..j] == p[..j] && r[k + 1..][j] != p[j]
    requires |back| == j + 1 && back[..j] == p[..j] && back[j] == r[k + 1..][j]
    ensures FirstDelimiter(r, p, k) == FirstDelimiter(r, p, Resume(r, k, j))
    ensures r[..Resume(r, k, j)] == r[..k] + [CR] + if r[k + 1 + j] == CR then back[..j] else back
  {
    assert r[k + 1..][..j] == r[k + 1..k + 1 + j];
    BrokenOff(r, p, k, j, Resume(r, k, j));
    assert r[..k + 1 + j] == r[..k] + [CR] + p[..j];
    assert back == back[..j] + [back[j]];
  }

  /** What one step of the scan may meet. */
  datatype Step = Byte | Delimiter | Broken

  /** The step at a carriage return, which has been read. */
  method AfterCarriageReturn(input: Input, msgbuf: array<byte>, p: seq<byte>, ghost r: seq<byte>, ghost k: nat)
    returns (step: Step, c: int, m: nat, flag': bool, ghost k': nat)
    requires input.Valid() && input.ahead == 0 && msgbuf.Length == 1024 && msgbuf != input.buf
    requires |p| <= 1023 && Plain(p) && k < |r| && r[k] == CR && input.Rest() == r[k + 1..]
    requires var f := FirstDelimiter(r, p, k); Past(r, p, f) <= f + 1024
    modifies input, input.buf, input.sock`input, msgbuf
    ensures step.Broken? ==> |r| <= Past(r, p, FirstDelimiter(r, p, k))
    ensures step.Delimiter? ==>
      && Past(r, p, k) < |r| && FirstDelimiter(r, p, k) == k && c == r[Past(r, p, k)]
      && input.Valid() && input.ahead == 0 && input.Rest() == r[Past(r, p, k) + 1..]
    ensures step.Byte? ==>
      && 0 <= c < 256 && m <= 1024 && k < k' <= |r|
      && input.Valid() && input.ahead == 0 && Reached(r, k', flag', input.Rest())
      && r[..k'] == r[..k] + [c] + msgbuf[..m]
      && FirstDelimiter(r, p, k) == FirstDelimiter(r, p, k')
  {
    hide Input.Valid, Input.Rest, FirstDelimiter, DelimiterAt, Plain, Zeros;
    m, flag', k', step := 0, false, k, Broken;
    AfterReturn(r, p, k);
    PastHere(r, p, k);
    var matched, j;
    c, matched, j := MatchPattern(input, msgbuf, p);
    if c == EOF {
      return;
    }
    assert r[k + 1..][j + 1..] == r[k + 2 + j..] && r[k + 1..][j] == r[k + 1 + j];
    if matched {
      step := Delimiter;
      return;
    }
    flag' := c == CR;
    PushedBack(r, p, k, j, msgbuf[..j + 1]);
    k' := Resume(r, k, j);
    m := if flag' then j else j + 1;
    c := CR;
    step := Byte;
  }

  /** One step of the scan at position k: a byte to store, and m bytes of `msgbuf` to store after it.
      A delimiter is reported with the byte after it in c. */
  method NextByte(input: Input, msgbuf: array<byte>, p: seq<byte>, flag: bool, ghost r: seq<byte>, ghost k: nat)
    returns (step: Step, c: int, m: nat, flag': bool, ghost k': nat)
    requires input.Valid() && input.ahead == 0 && msgbuf.Length == 1024 && msgbuf != input.buf
    requires |p| <= 1023 && Plain(p) && Reached(r, k, flag, input.Rest())
    requires var f := FirstDelimiter(r, p, k); Past(r, p, f) <= f + 1024
    modifies input, input.buf, input.sock`input, msgbuf
    ensures k <= |r| && (step.Broken? ==> |r| <= Past(r, p, FirstDelimiter(r, p, k)))
    ensures step.Delimiter? ==>
      && Past(r, p, k) < |r| && FirstDelimiter(r, p, k) == k && c == r[Past(r, p, k)]
      && input.Valid() && input.ahead == 0 && input.Rest() == r[Past(r, p, k) + 1..]
    ensures step.Byte? ==>
      && 0 <= c < 256 && m <= 1024 && k < k' <= |r|
      && input.Valid() && input.ahead == 0 && Reached(r, k', flag', input.Rest())
      && r[..k'] == r[..k] + [c] + msgbuf[..m]
      && FirstDelimiter(r, p, k) == FirstDelimiter(r, p, k')
  {
    hide Input.Valid, Input.Rest, FirstDelimiter, DelimiterAt, Zeros;
    m, flag', k', step := 0, flag, k, Broken;
    if !flag {
      c := input.Get1();
      if c == EOF {
        return;
      }
    }
    if flag || c == CR {
      step, c, m, flag', k' := AfterCarriageReturn(input, msgbuf, p, r, k);
      return;
    }
    NoReturnNoDelimiter(r, p, k);
    NoneBefore(r, p, k, k + 1);
    k' := k + 1;
    step := Byte;
  }

  /** The content of a part up to the delimiter in front of the next one, collected in blocks.  It is
      found exactly if the input holds a delimiter and, behind zero bytes, another byte after it,
      which is c.  The zeros and the delimiter must fit the buffer. */
  method GetMimeContent(input: Input, st: Store, boundary: seq<byte>)
    returns (found: bool, content: array<byte>, c: int)
    requires input.Valid() && input.ahead == 0 && Plain(boundary)
    requires var r, p := input.Rest(), Pattern(boundary);
      var f := FirstDelimiter(r, p, 0);
      Past(r, p, f) <= f + 1024
    modifies input, input.buf, input.sock`input, st
    ensures var r, p := old(input.Rest()), Pattern(boundary);
      var f := FirstDelimiter(r, p, 0);
      && (found <==> Past(r, p, f) < |r|)
      && (found ==>
            && fresh(content) && content[..] == r[..f] + [0]
            && c == r[Past(r, p, f)]
            && input.Valid() && input.ahead == 0 && input.Rest() == r[Past(r, p, f) + 1..])
    ensures found ==> st.blist == old(st.blist)
  {
    hide Input.Valid, Input.Rest, BlockWriter.Valid, FirstDelimiter, DelimiterAt, Reached, Pattern, Past;
    var p := Pattern(boundary);
    PlainPattern(boundary);
    ghost var r := input.Rest();
    ghost var k: nat := 0;
    Start(r);
    var msgbuf := new byte[1024];
    var w := new BlockWriter(st, 1024);
    var flag, t, m := false, 0, 0;
    while true
      invariant w.Valid() && fresh(w) && fresh(w.head) && fresh(w.head.Repr) && fresh(w.Memory)
      invariant w.st == st && w.k == 1024 && w.head.next == old(st.blist)
      invariant msgbuf !in w.Memory && msgbuf !in w.head.Repr && fresh(msgbuf) && msgbuf.Length == 1024
      invariant t + m <= 1024 && k <= |r|
      invariant input.Valid() && input.ahead == 0
      invariant Reached(r, k, flag, input.Rest())
      invariant w.written + msgbuf[t..t + m] == r[..k]
      invariant FirstDelimiter(r, p, 0) == FirstDelimiter(r, p, k)
      decreases |r| - k, m
    {
      w.Room();
      if m > 0 {
        Shift(w.written, msgbuf[t..t + m]);
        assert msgbuf[t..t + m][1..] == msgbuf[t + 1..t + m];
        w.Put(msgbuf[t]);
        t, m := t + 1, m - 1;
        continue;
      }
      ghost var was := w.written;
      assert was == r[..k];
      var step;
      t := 0;
      step, c, m, flag, k := NextByte(input, msgbuf, p, flag, r, k);
      if step.Broken? {
        return false, msgbuf, c;
      }
      if step.Delimiter? {
        break;
      }
      w.Put(c);
    }
    found := true;
    content := w.Finish();
  }

  /** A content followed by a delimiter: the scan stops at the first delimiter inside the content,
      and with none there, at its end.  So a content is read back exactly if no delimiter is in it;
      what could begin in the content and end in the delimiter behind it does not count. */
  lemma {:induction false} ContentDelimited(content: seq<byte>, p: seq<byte>, tail: seq<byte>, k: nat)
    requires Plain(p) && k <= |content|
    ensures FirstDelimiter(content + ([CR] + p + tail), p, k) == FirstDelimiter(content, p, k)
    decreases |content| - k
  {
    var s := content + ([CR] + p + tail);
    if k == |content| {
      assert s[k..][..1 + |p|] == [CR] + p;
    } else {
      ContentDelimited(content, p, tail, k + 1);
      if DelimiterAt(content, p, k) {
        assert s[k..][..1 + |p|] == content[k..][..1 + |p|];
      }
      if DelimiterAt(s, p, k) {
        if |content| < k + 1 + |p| {
          var j := |content| - k - 1;
          DelimiterHas(s, p, k, j);
          assert false;
        }
        assert content[k..][..1 + |p|] == s[k..][..1 + |p|];
      }
    }
  }

  /** What is sent behind a content begins with a delimiter, so the scan stops at the end of the
      content exactly if no delimiter is inside it. */
  lemma ContentReadBack(content: seq<byte>, boundary: seq<byte>, more: seq<Part>)
    requires Plain(boundary) && |boundary| <= 1020
    ensures FirstDelimiter(content + Parts(boundary, more), Pattern(boundary), 0)
         == FirstDelimiter(content, Pattern(boundary), 0)
  {
    hide Parts, FirstDelimiter;
    var rest, p := Parts(boundary, more), Pattern(boundary);
    PartsBegin(boundary, more);
    var tail := rest[1 + |p|..];
    assert rest == [CR] + p + tail;
    ContentDelimited(content, p, tail, 0);
  }

  lemma PartsBegin(boundary: seq<byte>, list: seq<Part>)
    requires |boundary| <= 1020
    ensures [CR] + Pattern(boundary) <= Parts(boundary, list)
  {
    assert [CR] + Pattern(boundary) == (CRLF + DASHES) + boundary;
    hide HeaderLine;
  }

  /** Behind the delimiter of what follows a content there is a line break or a dash. */
  lemma PartsGoOn(boundary: seq<byte>, list: seq<Part>)
    requires |boundary| <= 1020
    ensures var p, rest := Pattern(boundary), Parts(boundary, list);
      |rest| > 1 + |p| && rest[0] == CR && rest[1 + |p|] != 0
  {
    var d := (CRLF + DASHES) + boundary;
    assert |d| == 1 + |Pattern(boundary)|;
    if list == [] {
      assert Parts(boundary, list) == d + DASHES;
    } else {
      hide HeaderLine;
      assert PartHeader(boundary, list[0])[..|d| + 2] == d + CRLF;
    }
  }

  lemma ContentDelimiterIn(content: seq<byte>, p: seq<byte>)
    ensures var f := FirstDelimiter(content, p, 0); f < |content| ==> f + 1 + |p| <= |content|
  {
    FirstDelimiterAt(content, p, 0);
  }

  lemma {:induction false} FirstDelimiterAt(s: seq<byte>, p: seq<byte>, k: nat)
    requires k <= |s|
    ensures var f := FirstDelimiter(s, p, k); f < |s| ==> DelimiterAt(s, p, f)
    decreases |s| - k
  {
    if k < |s| && !DelimiterAt(s, p, k) {
      FirstDelimiterAt(s, p, k + 1);
    }
  }

  lemma {:induction false} ZerosStop(s: seq<byte>, n: nat)
    requires n < |s| && s[n] != 0
    ensures Zeros(s) <= n
  {
    if n > 0 {
      ZerosStop(s[1..], n - 1);
    }
  }

  /** There is a byte behind the first delimiter, and no zero right behind it unless it is inside of
      the content. */
  lemma PastContent(content: seq<byte>, boundary: seq<byte>, more: seq<Part>)
    requires Plain(boundary) && |boundary| <= 1020
    ensures var r, p := content + Parts(boundary, more), Pattern(boundary);
      var f := FirstDelimiter(content, p, 0);
      && FirstDelimiter(r, p, 0) == f && Past(r, p, f) < |r|
      && (f == |content| ==> Past(r, p, f) == f + 1 + |p|)
  {
    hide Parts, FirstDelimiter, Pattern;
    var rest, p := Parts(boundary, more), Pattern(boundary);
    var r, f := content + rest, FirstDelimiter(content, p, 0);
    ContentReadBack(content, boundary, more);
    PartsGoOn(boundary, more);
    ContentDelimiterIn(content, p);
    var e := f + 1 + |p|;
    if f < |content| {
      assert r[e..][|content| - e] == r[|content|] == rest[0];
      ZerosStop(r[e..], |content| - e);
    } else {
      assert r[e..][0] == rest[1 + |p|];
      ZerosStop(r[e..], 0);
    }
  }

  /** A content that is sent in front of other parts, in any mode and cut up in any way, is read up to
      the first delimiter in it: as a whole exactly if there is none. */
  method ContentRoundTrip(content: seq<byte>, boundary: seq<byte>, more: seq<Part>, io: IoMode)
    returns (read: array<byte>)
    requires Plain(boundary) && |boundary| <= 1020 && io != Length
    requires var p := Pattern(boundary);
      var f := FirstDelimiter(content, p, 0);
      f < |content| ==> Past(content + Parts(boundary, more), p, f) <= f + 1024
    ensures var f := FirstDelimiter(content, Pattern(boundary), 0);
      read[..] == content[..f] + [0] && (read[..] == content + [0] <==> f == |content|)
  {
    hide Output.Valid, Input.Valid, Input.Rest, Parts, FirstDelimiter, Past, Pattern, Plain;
    PastContent(content, boundary, more);
    var line := new Socket([]);
    var output := new Output(line, io);
    output.SendRaw(content);
    PutMime(output, boundary, more);
    ghost var r := content + Parts(boundary, more);
    assert output.sent == r;
    var input := Deliver(output);
    var st := new Store();
    var found, c;
    found, read, c := GetMimeContent(input, st, boundary);
    ghost var f := FirstDelimiter(content, Pattern(boundary), 0);
    assert r[..f] == content[..f];
    assert f == |content| ==> content[..f] == content;
  }

  lemma Start(r: seq<byte>)
    ensures Reached(r, 0, false, r)
  {
  }

  lemma Shift(a: seq<byte>, b: seq<byte>)
    requires b != []
    ensures a + b == a + [b[0]] + b[1..]
  {
  }
}
