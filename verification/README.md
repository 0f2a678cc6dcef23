# Verified model of strManager's message layer, libltdl lists and stream tables

This project models three parts of the strManager repository in Dafny and proves what they are for.

* **The gSOAP wire layer** (`stdsoap2.cpp`, `stdsoap2.h`): sending through a buffer or in chunks, and
  the reader of a chunked connection; XML text and attribute values; UTF-8; base64; DIME and MIME
  attachments and the length that is announced for them; the block store; references by id.
* **libltdl** (`ltdl.c`, `argz.c`, `slist.c`): string vectors edited in place, search paths, the table
  of open modules, and the merge of linked lists.
* **The stream registry** (`Worker.cpp`, `RtcpWorker.cpp`, `StreamList.cpp`): the tables of ports,
  lists and source addresses, and the paired lists of RTP streams.

What the C code updates in place is a class here, and each method is proved against a function of the
values it works on. Connections are sockets with an append-only output and an input that is handed
out in pieces of any positive length (`Transport.dfy`).

| file | content |
|---|---|
| `Bytes.dfy`, `Transport.dfy` | bytes, sequences, connections |
| `ChunkedCoding.dfy`, `SoapOutput.dfy`, `SoapInput.dfy`, `ChunkedTransfer.dfy` | the chunked coding (section 3.6.1 of RFC 2616), the sender, the receiver, and both together |
| `BlockStore.dfy` | block sequences and their nesting |
| `XmlLexer.dfy`, `Utf8.dfy`, `LookAside.dfy`, `XmlText.dfy` | tokens of XML content, UTF-8 (section 2 of RFC 2279), the buffer text is collected in, text and values (sections 2.4 to 2.7 of XML 1.0) |
| `Base64.dfy` | base64 (section 6.8 of RFC 2045) |
| `Dime.dfy`, `Mime.dfy` | attachments, their lengths, and the delimiter scan (section 5.1.1 of RFC 2046) |
| `IdRef.dfy`, `IdRun.dfy` | references and copies by id; runs of calls |
| `Argz.dfy`, `Paths.dfy` | string vectors; search paths |
| `HandleTable.dfy`, `SList.dfy` | open modules; linked lists |
| `StreamList.dfy`, `Worker.dfy`, `RtcpWorker.dfy` | the stream registry (section 11 of RFC 3550 for the pairs of ports) |

`dafny verify dfyconfig.toml` checks everything.

## Where the code does less than one might expect

Each of these is stated with the exact condition, and shown at an input.

* The announced length of DIME attachments is right if and only if no id or type that is sent has more
  than 65536 bytes (`Mime.TwoPasses`; at 65537 bytes, `Mime.LongId`).
* Inside of an inner element of a text the character behind a slash is looked at and pushed back. A
  closing bracket there ends the inner element even if it is content (`XmlText.SlashStep`,
  `XmlText.SlashBracket`), so the text `<b>/></b>` ends at the end tag of `b` (`XmlText.EarlyEnd`). A
  zero byte there is lost, and so is a `]` with another one behind it in a CDATA section
  (`XmlText.SlashLosesBracket`): a section that does not end with a slash is read literally if and only
  if no slash in it has one of these behind it (`XmlText.SectionLiteral`); and a slash at its end acts
  on what follows the section (`XmlText.SectionInText`, `XmlText.SlashEndsSection`). Outside of inner
  elements every section is read literally.
* A text, and a value that needs a new buffer, end at the first zero byte (`XmlText.StringIn`,
  `XmlText.AttributeValue`). A text holds one if and only if a character in it has a code that is a
  multiple of 256 (`XmlText.ZeroStored`), such as the reference `&#0;` (`XmlText.ZeroReference`) and
  U+0100 (`XmlText.LowByteZero`).
* Of a character reference at most seven characters are read behind the ampersand, so a code that is
  sent as a decimal reference is read back if and only if it is below 100000 (`XmlText.ReferenceReadBack`):
  from there on the semicolon, and the digits behind the sixth, stay in the text (`XmlText.LexLong`); and
  so it does behind a hexadecimal reference with five digits (`XmlText.LexHexNumber`).
* A chunked message without a single byte has a line end in front of its last chunk
  (`ChunkedTransfer.SendStandard`).
* A MIME content that holds the delimiter is cut off there (`Mime.ContentRoundTrip`).
* `argz_stringify` does not look at the first byte, so a vector whose first string of several is empty
  is not joined (`Argz.StringifyGlues`; `Argz.EmptyNotGlued`); it needs at least two bytes to stop.
* A string that ends with a delimiter is split into its words and an empty string
  (`Argz.MarkedPieces`; `Argz.DelimiterAtEnd`), so a search path whose last element has only slashes is
  enumerated with an empty name at the end (`Paths.CanonicalPieces`; `Paths.EmptyName`).
* Canonicalising a path is idempotent if and only if no element of only slashes comes after another
  element (`Paths.Idempotent`): `a:/:b` becomes `a::b`, and that `a:b` (`Paths.CanonicalTwice`).
* A resident module that was closed once more than opened, and is opened again, is linked into the
  handle list a second time, which makes the list run in a circle (`HandleTable.Table.Open`;
  `HandleTable.Overclose`). Shutting down drops the resident modules from the table that have none in
  front of them that is not resident (`HandleTable.Table.Exit`; `HandleTable.Forgotten`,
  `HandleTable.TwoForgotten`).
* When an RTP source's two ports cannot be opened, the second call of `add_socket` may open the upper
  port and the one above it, although the source is refused (`Rtcp.RtcpWorker.AddSource`;
  `Rtcp.StrayPort`). Closing the last source leaves a count of -1 for the upper port
  (`Rtcp.RtcpWorker.RemoveSource`; `Rtcp.MinusOne`), which the next source repairs.
* What is to be copied stays undone exactly for the greatest set of ids that block each other: each has
  no object, or one with a part that waits for an id of the set; and the call succeeds all the same
  (`IdRef.Soap.Resolve`, `IdRef.AllServed`; two objects that are to be copies of each other,
  `IdRef.MutualCopies`).
* The kind of an object is compared with that of a reference only if the reference comes after the
  object (`IdRun.AcceptedExactly`; `IdRun.OtherKind`).

## Model

| member | source | states |
|---|---|---|
| ChunkedTransfer.RoundTrip | examples/WS_strManager/src/ws/stdsoap2.cpp:665-761 | for every list of sent pieces, every header before and bytes after, and every way the connection cuts the stream, the receiver reads exactly the bytes sent, in order, then end of input |
| ChunkedTransfer.ReceiveStandard | examples/WS_strManager/src/ws/stdsoap2.cpp:1086-1130 | a message of any sender that keeps to the standard, with sizes of at most seven digits in either case and extensions, is read as its data, however the connection cuts it |
| ChunkedTransfer.SendStandard | examples/WS_strManager/src/ws/stdsoap2.cpp:735-761 | what is on the wire is a Chunked-Body of RFC 2616, with upper-case sizes, of non-empty chunks that join to the message; a message without a byte has a line end too many in front |
| ChunkedTransfer.Deliver | examples/WS_strManager/src/ws/stdsoap2.cpp:5958-6020 | in every mode of sending, ending a message leaves a receiver that will read exactly what was sent |
| ChunkedTransfer.Receive | examples/WS_strManager/src/ws/stdsoap2.cpp:12768-12772 | a receiver that has read the header, and perhaps further, reads the decoding of the rest of the stream to its end |
| ChunkedTransfer.ReadAll | examples/WS_strManager/src/ws/stdsoap2.cpp:1026-1181 | reading until the first end of input gives all that was left to read |
| ChunkedCoding.DechunkEncode | examples/WS_strManager/src/ws/stdsoap2.cpp:735-761 | decoding any list of non-empty chunks with their running size prefix and the last chunk gives the chunks joined, whatever follows |
| ChunkedCoding.DechunkStandard | examples/WS_strManager/src/ws/stdsoap2.cpp:1098-1130 | by induction over the chunks of a Chunked-Body: the decoding is their data |
| ChunkedCoding.SentBody | examples/WS_strManager/src/ws/stdsoap2.cpp:735-761 | the chunks as sent, with the terminator, are the Chunked-Body of the standard if there is a chunk |
| ChunkedCoding.HeaderRead | examples/WS_strManager/src/ws/stdsoap2.cpp:1098-1110 | any header line, with one to seven digits, and with more than seven as well, has the value of these digits as its size |
| ChunkedCoding.AnyHeader | examples/WS_strManager/src/ws/stdsoap2.cpp:1098-1110 | the size as sent may as well be written in lower and mixed case, with an extension behind it |
| ChunkedCoding.TenBytes | examples/WS_strManager/src/ws/stdsoap2.cpp:1098-1110 | the ten bytes behind the header a are read |
| ChunkedCoding.DigitChars | examples/WS_strManager/src/ws/stdsoap2.cpp:1102-1110 | the values of the sixteen digits, in either case |
| ChunkedCoding.HexChars | examples/WS_strManager/src/ws/stdsoap2.cpp:1102-1110 | and nothing else is a digit |
| ChunkedCoding.CutOff | examples/WS_strManager/src/ws/stdsoap2.cpp:1102-1104 | a message ends where the input, or a byte 255, cuts off the search for a size |
| ChunkedCoding.SizeCutOff | examples/WS_strManager/src/ws/stdsoap2.cpp:1105-1110 | and where it cuts off the header line |
| ChunkedCoding.EncodeSnoc | examples/WS_strManager/src/ws/stdsoap2.cpp:735-761 | a further chunk is the old coding followed by its header and its bytes; the first header has no line break in front |
| ChunkedCoding.TakeChunkSplit | examples/WS_strManager/src/ws/stdsoap2.cpp:1118-1130 | a chunk that is exposed in two parts is the same as one exposed at once |
| ChunkedCoding.HexInverse | examples/WS_strManager/src/ws/stdsoap2.cpp:742 | the hexadecimal size of a chunk is read back as the number |
| ChunkedCoding.HexLength | examples/WS_strManager/src/ws/stdsoap2.cpp:740-744 | a size below 16^k has at most k digits, so the header fits its 16-byte buffer |
| ChunkedCoding.ParseChunkHeader | examples/WS_strManager/src/ws/stdsoap2.cpp:1098-1110 | the line a header is sent as is parsed back as its size, for the first chunk and the later ones |
| SoapOutput.Output.SendRaw | examples/WS_strManager/src/ws/stdsoap2.cpp:665-690 | in each mode but SOAP_IO_STORE, whatever the buffer holds: what was sent before followed by the new bytes, in order; the buffer and the chunks stay consistent |
| SoapOutput.Output.FlushBuffer | examples/WS_strManager/src/ws/stdsoap2.cpp:698-729 | emptying the buffer sends its bytes once; an empty buffer sends no chunk |
| SoapOutput.Output.FlushRaw | examples/WS_strManager/src/ws/stdsoap2.cpp:735-761 | outside of SOAP_IO_STORE: one chunk with its header, or the plain bytes; the running size wraps at 2^64, as a size_t does |
| SoapOutput.Output.EndSend | examples/WS_strManager/src/ws/stdsoap2.cpp:5958-6020 | outside of SOAP_IO_STORE: the rest of the buffer and, for chunks, the terminator, after which the wire holds the whole coding |
| SoapInput.Input.RecvRaw | examples/WS_strManager/src/ws/stdsoap2.cpp:1026-1181 | refilling the buffer changes nothing of what is left to read, exposes at least one byte unless there is none, and ends exactly at the end of the decoded stream; the end is noted in the character kept ahead, or it is met again |
| SoapInput.Input.NextChunk | examples/WS_strManager/src/ws/stdsoap2.cpp:1086-1130 | at a chunk boundary: the next chunk is opened, or the end is met, at the last chunk or at an input that ends or has no size where a header belongs |
| SoapInput.Input.FindChunk | examples/WS_strManager/src/ws/stdsoap2.cpp:1086-1100 | at a chunk boundary: more bytes of the wire, or the end |
| SoapInput.Input.GetChunkSize | examples/WS_strManager/src/ws/stdsoap2.cpp:1098-1110 | the header line is parsed, or rejected, as its grammar says, one character at a time across refills |
| SoapInput.Input.OpenChunk | examples/WS_strManager/src/ws/stdsoap2.cpp:1118-1130 | a chunk that lies in the buffer in part is exposed so far, and the rest is remembered |
| SoapInput.Input.RecvChunk | examples/WS_strManager/src/ws/stdsoap2.cpp:1075-1081 | a chunk that is not finished is refilled without a loss |
| SoapInput.Input.GetChunkChar | examples/WS_strManager/src/ws/stdsoap2.cpp:999-1010 | the next character of the wire, read through a signed char; on end of input the count of buffered bytes is 0 |
| SoapInput.Input.BeginChunked | examples/WS_strManager/src/ws/stdsoap2.cpp:12768-12772 | switching to chunked reading makes what is left the decoding of what was left |
| SoapInput.Input.Get0 | examples/WS_strManager/src/ws/stdsoap2.h:1771 | the next byte without taking it, or end of input |
| SoapInput.Input.Get1 | examples/WS_strManager/src/ws/stdsoap2.h:1772 | the next byte, or end of input |
| SoapInput.Input.RevGet1 | examples/WS_strManager/src/ws/stdsoap2.h:1778 | the byte that was taken last is to be read again |
| SoapInput.Input.GetChar | examples/WS_strManager/src/ws/stdsoap2.cpp:1259-1270 | the character kept ahead, if there is one, else the next byte |
| SoapInput.Input.Move | examples/WS_strManager/src/ws/stdsoap2.cpp:1579-1587 | skips n bytes, or fails exactly if there are fewer |
| Utf8.CodesRoundTrip | examples/WS_strManager/src/ws/stdsoap2.cpp:1608-1684 | every sequence of codes from 0x80 to 0x7FFFFFFF is read back in order, without the byte order marks, in every mode of sending |
| Utf8.ReadBack | examples/WS_strManager/src/ws/stdsoap2.cpp:1653-1684 | each single code in this range is read back, but U+FEFF is passed over |
| Utf8.ReadCodes | examples/WS_strManager/src/ws/stdsoap2.cpp:1653-1684 | reading until end of input gives all codes that are left but byte order marks |
| Utf8.SkipBOM | examples/WS_strManager/src/ws/stdsoap2.cpp:1670-1673 | any run of byte order marks in front of a code is passed over |
| Utf8.Layout | examples/WS_strManager/src/ws/stdsoap2.cpp:1615-1640 | a code takes two to six bytes by its size, and each byte has the marks of its place |
| Utf8.PutUtf8 | examples/WS_strManager/src/ws/stdsoap2.cpp:1608-1645 | the bytes sent for a code, in canonical form or as a character reference |
| Utf8.GetUtf8 | examples/WS_strManager/src/ws/stdsoap2.cpp:1653-1684 | from any position of the lexer, with a code pushed back or not, in content or in a CDATA section, behind markup or not: the code of one to six bytes and the position behind it, or the end; a byte that does not belong to a sequence is given back. Nothing is said of a sequence that the end of the input cuts off |
| Utf8.GetSequence | examples/WS_strManager/src/ws/stdsoap2.cpp:1665-1684 | the bytes behind the first one make the code, or a byte order mark is passed over |
| XmlLexer.Lexer.Get | examples/WS_strManager/src/ws/stdsoap2.cpp:1442-1532 | from any position: the next code, with comments, instructions, declarations and the brackets of CDATA sections in front of it passed over, and the position behind it, CDATA state and pushed-back code included; or the end. Nothing is said of an input that ends in an open bracket or inside of a closing CDATA bracket, or begins with an XML declaration |
| XmlLexer.Lexer.GetFrom | examples/WS_strManager/src/ws/stdsoap2.cpp:1450-1531 | the same from a byte that was read already; any other code that was pushed back is returned as it is |
| XmlLexer.Lexer.GetCharRef | examples/WS_strManager/src/ws/stdsoap2.cpp:1378-1412 | the character of a reference of at most seven characters, by its name or its number as strtol reads it, up to the first zero byte; it ends at the semicolon, after seven characters or at the end of the input |
| XmlLexer.Lexer.SkipInstruction | examples/WS_strManager/src/ws/stdsoap2.cpp:1538-1572 | goes on exactly behind the next question mark, by one character |
| XmlLexer.Lexer.SkipComment | examples/WS_strManager/src/ws/stdsoap2.cpp:1493-1497 | goes on exactly at the second dash of the next two, which are looked for in pairs behind a dash |
| XmlLexer.Lexer.SkipMarkup | examples/WS_strManager/src/ws/stdsoap2.cpp:1479-1515 | what is skipped for a declaration, comment, instruction or directive, and where a CDATA section begins |
| XmlLexer.Lexer.SkipToEnd | examples/WS_strManager/src/ws/stdsoap2.cpp:1502-1513 | goes on behind the bracket that closes the markup, nested brackets counted |
| XmlLexer.Lexer.CloseSection | examples/WS_strManager/src/ws/stdsoap2.cpp:1453-1471 | the section ends with its three closing characters; a bracket that is none of them is returned, and the one after it is given back |
| XmlLexer.LooseNumbers | examples/WS_strManager/src/ws/stdsoap2.cpp:1390-1391 | the number of a reference may have white space or a sign in front |
| XmlLexer.CommentSkipped | examples/WS_strManager/src/ws/stdsoap2.cpp:1492-1514 | a comment in front of a character does not show |
| XmlLexer.InstructionSkipped | examples/WS_strManager/src/ws/stdsoap2.cpp:1500-1514 | an instruction in front of a character does not show |
| XmlLexer.DeclarationSkipped | examples/WS_strManager/src/ws/stdsoap2.cpp:1500-1514 | and so with a declaration, with a bracketed part inside or not |
| XmlLexer.PercentSkipped | examples/WS_strManager/src/ws/stdsoap2.cpp:1500-1514 | and with a directive |
| XmlLexer.TagOpened | examples/WS_strManager/src/ws/stdsoap2.cpp:1476-1517 | a bracket in front of a name, with blanks between them or not, begins a tag |
| XmlLexer.TagClosed | examples/WS_strManager/src/ws/stdsoap2.cpp:1476-1519 | and in front of a slash an end tag |
| XmlLexer.SectionEntered | examples/WS_strManager/src/ws/stdsoap2.cpp:1483-1491 | behind the opening of a CDATA section its characters follow |
| XmlLexer.SectionLeft | examples/WS_strManager/src/ws/stdsoap2.cpp:1457-1461 | and behind its closing brackets the content |
| XmlText.ContentRoundTrip | examples/WS_strManager/src/ws/stdsoap2.cpp:8644-8815 | well-formed content, that is characters, references to the predefined entities and inner elements nested to any depth, sent in any mode and cut up in any way, is read as it was written if it is to stay markup, and else with the characters its references stand for |
| XmlText.ContentReadBack | examples/WS_strManager/src/ws/stdsoap2.cpp:8644-8815 | such content in front of an end tag is collected up to this tag |
| XmlText.ReadsXml | examples/WS_strManager/src/ws/stdsoap2.cpp:8704-8803 | by induction over the nodes: at any depth content is stored so, and the depth behind it is the same |
| XmlText.InnerElement | examples/WS_strManager/src/ws/stdsoap2.cpp:8706-8717 | the text of a in <a><b>x</b></a> ends at the end tag of a |
| XmlText.SectionInText | examples/WS_strManager/src/ws/stdsoap2.cpp:8644-8813 | in the text of an element, at every depth of inner elements: a CDATA section of ASCII characters stands for exactly what is in it outside of inner elements, and inside of them for this without the characters that slashes lose; a slash at its end acts on what follows the section |
| XmlText.SectionLiteral | examples/WS_strManager/src/ws/stdsoap2.cpp:8724-8735 | inside of an inner element a section that does not end with a slash stands for what is in it if and only if no slash in it has a zero byte, or a closing bracket with another one behind it, as its next character |
| XmlText.LossyExact | examples/WS_strManager/src/ws/stdsoap2.cpp:8727-8735 | what is stored of a section is the section if and only if no slash in it loses the next character |
| XmlText.SlashEndsSection | examples/WS_strManager/src/ws/stdsoap2.cpp:8727-8735 | a slash at the end of a section: if the next lexeme can be pushed back, the text goes on behind the section, in one inner element less exactly if this lexeme is a closing bracket |
| XmlText.SlashStep | examples/WS_strManager/src/ws/stdsoap2.cpp:8727-8735 | what a slash in an inner element does to the depth, and that the lexeme behind it is read again if and only if it can be pushed back |
| XmlText.SlashBracket | examples/WS_strManager/src/ws/stdsoap2.cpp:8727-8735 | a slash and a bracket end an inner element, be they content or not |
| XmlText.EarlyEnd | examples/WS_strManager/src/ws/stdsoap2.cpp:8727-8735 | of the text <b>/></b> the end tag of b is taken for the end of the text |
| XmlText.CommentInText | examples/WS_strManager/src/ws/stdsoap2.cpp:8644-8813 | a text with a comment in front is the text without it |
| XmlText.InstructionInText | examples/WS_strManager/src/ws/stdsoap2.cpp:8644-8813 | and so with an instruction |
| XmlText.SlashLosesBracket | examples/WS_strManager/src/ws/stdsoap2.cpp:8727-8733 | an input in a CDATA section inside an inner element: of two closing brackets behind a slash one is lost, for the lexer has pushed one back already when the look-ahead pushes back the other |
| LookAside.Buffer.Append | examples/WS_strManager/src/ws/stdsoap2.cpp:7861-7886 | the bytes come behind those that are there, and there is room for another one; the buffer is as large as doubling makes it |
| LookAside.Buffer.Reserve | examples/WS_strManager/src/ws/stdsoap2.cpp:7862-7880 | enlarging by copying changes nothing of what is in use |
| LookAside.Buffer.Store | examples/WS_strManager/src/ws/stdsoap2.cpp:7848-7851 | the buffer holds these bytes, from the beginning |
| LookAside.Buffer.Claim | examples/WS_strManager/src/ws/stdsoap2.cpp:8654-8658 | all of the free part is claimed, at least one byte, and what was written stays |
| LookAside.Buffer.Finish | examples/WS_strManager/src/ws/stdsoap2.cpp:8813-8815 | the string that was written up to its first zero byte, in memory of its own |
| LookAside.StrDup | examples/WS_strManager/src/ws/stdsoap2.cpp:2044-2049 | a copy of the string in a buffer |
| XmlText.TextRoundTrip | examples/WS_strManager/src/ws/stdsoap2.cpp:8289-8371 | every text without a zero byte, escaped and followed by an end tag, is collected unchanged by the reader |
| XmlText.ValueRoundTrip | examples/WS_strManager/src/ws/stdsoap2.cpp:7787-7839 | every attribute value without a zero byte, in quotes of either kind or without, is read back unchanged if it does not hold its own end, in the given buffer if it fits, else in a larger one |
| XmlText.TextReadBack | examples/WS_strManager/src/ws/stdsoap2.cpp:8644-8818 | by induction over the text: the reader stores its escaped form as the text itself, and stops at the end tag |
| XmlText.ValueReadBack | examples/WS_strManager/src/ws/stdsoap2.cpp:7787-7839 | by induction over the value, for each kind of delimiter: its escaped form is stored as the value itself, and its end is found |
| XmlText.LexEscaped | examples/WS_strManager/src/ws/stdsoap2.cpp:8289-8371 | each escaped byte is one token of the lexer |
| XmlText.LexNumber | examples/WS_strManager/src/ws/stdsoap2.cpp:1378-1410 | a decimal reference of at most five digits is read as its number |
| XmlText.ReferenceReadBack | examples/WS_strManager/src/ws/stdsoap2.cpp:1378-1391 | a code that is sent as a reference is read back if and only if it is below 100000 |
| XmlText.LexLong | examples/WS_strManager/src/ws/stdsoap2.cpp:1382-1388 | of a decimal reference with more digits six are read, and the others and the semicolon are left in the text |
| XmlText.LexHexNumber | examples/WS_strManager/src/ws/stdsoap2.cpp:1390-1391 | a hexadecimal reference, in either case, is read as its number, and its semicolon is left in the text if it has five digits |
| XmlText.EscapedForms | examples/WS_strManager/src/ws/stdsoap2.cpp:8289-8371 | ampersands, brackets and quotes are sent as their entities |
| XmlText.EscapedControls | examples/WS_strManager/src/ws/stdsoap2.cpp:8289-8371 | line ends, and tabs in values, as hexadecimal references |
| XmlText.StartInValue | examples/WS_strManager/src/ws/stdsoap2.cpp:7787-7839 | a bracket in a value stands for itself |
| XmlText.EndInValue | examples/WS_strManager/src/ws/stdsoap2.cpp:7800-7806 | and so does a slash behind it |
| XmlText.StringOut | examples/WS_strManager/src/ws/stdsoap2.cpp:8289-8371 | the bytes sent are the escaped text |
| XmlText.StringIn | examples/WS_strManager/src/ws/stdsoap2.cpp:8644-8815 | from any position of the lexer: the characters up to the end tag or to the end of the input, with the inner tags counted by brackets and by slashes in front of a bracket, comments and instructions passed over and CDATA sections taken as in XmlText.SectionInText, as far as the first zero byte, in memory of their own; the code that ended the text is pushed back |
| XmlText.CollectText | examples/WS_strManager/src/ws/stdsoap2.cpp:8650-8812 | the loop puts the text into the look-aside buffer, however often that is doubled |
| XmlText.TextSame | examples/WS_strManager/src/ws/stdsoap2.cpp:8644-8813 | a text depends only on its first character and what follows it |
| XmlText.ZeroReference | examples/WS_strManager/src/ws/stdsoap2.cpp:1378-1391 | the reference to the character 0 puts a zero byte into a text, and what is returned of it is empty |
| XmlText.LowByteZero | examples/WS_strManager/src/ws/stdsoap2.cpp:8796-8803 | and so does the character U+0100, of which the low byte is stored |
| XmlText.ZeroStored | examples/WS_strManager/src/ws/stdsoap2.cpp:8644-8815 | a text holds a zero byte if and only if one of the codes it is made of is a multiple of 256 |
| XmlText.CharStep | examples/WS_strManager/src/ws/stdsoap2.cpp:8704-8803 | what one code adds to the text and to the depth of tags, what is left to store, and where the lexer stands then |
| XmlText.PeekEnd | examples/WS_strManager/src/ws/stdsoap2.cpp:8727-8735 | whether a slash ends an empty inner element; any character behind it, and the end of the input, is pushed back |
| XmlText.GetAttrVal | examples/WS_strManager/src/ws/stdsoap2.cpp:7787-7839 | from a place in a buffer on: the value and a zero if it is shorter than the room, the error if the input ends first, or a full buffer and the position from which the rest of the value is read |
| XmlText.CollectValue | examples/WS_strManager/src/ws/stdsoap2.cpp:8083-8094 | a value of any length is collected in the look-aside buffer behind its first part; it fails exactly if the input ends in the value |
| XmlText.CollectPart | examples/WS_strManager/src/ws/stdsoap2.cpp:8084-8091 | one pass fills the free part and makes room again, or ends |
| XmlText.AttributeValue | examples/WS_strManager/src/ws/stdsoap2.cpp:8074-8104 | the value is in the given buffer if it fits, and otherwise, up to its first zero byte, in a new one; it fails exactly if the input ends in the value |
| BlockStore.Collect | examples/WS_strManager/src/ws/stdsoap2.cpp:2057-2395 | for every nesting of block sequences, each one yields its own pieces in the order they were pushed, and leaves the sequences around it alone |
| BlockStore.OwnPiecesNext | examples/WS_strManager/src/ws/stdsoap2.cpp:2075-2087 | a piece that is pushed is the next one of its sequence, and what is pushed in a sequence inside is not |
| BlockStore.BlockList.Push | examples/WS_strManager/src/ws/stdsoap2.cpp:2075-2087 | a new last piece; the size grows by its length |
| BlockStore.BlockList.Pop | examples/WS_strManager/src/ws/stdsoap2.cpp:2095-2104 | the last piece goes, and its length with it; nothing happens to an empty sequence |
| BlockStore.BlockList.Shorten | examples/WS_strManager/src/ws/stdsoap2.cpp:2283-2289 | the last piece is cut to n bytes, all others stay |
| BlockStore.BlockList.First | examples/WS_strManager/src/ws/stdsoap2.cpp:2297-2312 | turning the chain round in place gives the blocks in push order, each once |
| BlockStore.BlockList.Next | examples/WS_strManager/src/ws/stdsoap2.cpp:2320-2331 | the block that was visited goes, the chain behind it stays |
| BlockStore.BlockList.CopyOut | examples/WS_strManager/src/ws/stdsoap2.cpp:2377-2391 | the destination gets all pieces in push order |
| BlockStore.Store.NewBlock | examples/WS_strManager/src/ws/stdsoap2.cpp:2057-2067 | an empty sequence inside the current one |
| BlockStore.Store.SaveBlock | examples/WS_strManager/src/ws/stdsoap2.cpp:2371-2395 | the joined pieces, in the given memory or in new memory |
| BlockStore.TotalSizeOfData | examples/WS_strManager/src/ws/stdsoap2.cpp:2083-2105 | the size field is the number of bytes of the pieces |
| BlockStore.SizeOfPieces | examples/WS_strManager/src/ws/stdsoap2.cpp:2083-2105 | so a buffer of this size holds all pieces |
| BlockStore.BlockWriter.Room | examples/WS_strManager/src/ws/stdsoap2.cpp:11503-11510 | a new block is pushed exactly when the current one is full; what was written stays |
| BlockStore.BlockWriter.Put | examples/WS_strManager/src/ws/stdsoap2.cpp:11510-11545 | a byte is added to what was written, in the current block only |
| BlockStore.BlockWriter.Finish | examples/WS_strManager/src/ws/stdsoap2.cpp:11552-11563 | the text that was written and a zero, in one piece |
| Dime.RoundTrip | examples/WS_strManager/src/ws/stdsoap2.cpp:11269-11364 | every non-empty list of attachments within the field widths is read back, stopping at the record with the ME flag; an empty field comes back as none |
| Dime.RecordsReadBack | examples/WS_strManager/src/ws/stdsoap2.cpp:11269-11364 | the same for the bytes, whatever follows the message |
| Dime.RecordReadBack | examples/WS_strManager/src/ws/stdsoap2.cpp:11046-11080 | one record: flags, four lengths, padded fields |
| Dime.TakeHeadOf | examples/WS_strManager/src/ws/stdsoap2.cpp:11209-11250 | the twelve header bytes are parsed back as the flags and lengths, the options length from its two bytes |
| Dime.HeaderLayout | examples/WS_strManager/src/ws/stdsoap2.cpp:11062-11073 | where the header has the version, the flags and the four lengths, upper bytes first |
| Dime.RecordBytes | examples/WS_strManager/src/ws/stdsoap2.cpp:11046-11080 | the bytes of a record with an id and a type |
| Dime.FieldBytes | examples/WS_strManager/src/ws/stdsoap2.cpp:11007-11011 | a field is filled up with zeros to a multiple of four bytes |
| Dime.SizeSign | examples/WS_strManager/src/ws/stdsoap2.cpp:11231 | a size of 2^31 or more is extended with ones, for it is put together as a signed int |
| Dime.CutOff | examples/WS_strManager/src/ws/stdsoap2.cpp:11176-11364 | a message that was read in full is refused as too short when it is cut off anywhere before its end |
| Dime.SentCutOff | examples/WS_strManager/src/ws/stdsoap2.cpp:11090-11168 | and so what is sent for a list of attachments |
| Dime.PutDime | examples/WS_strManager/src/ws/stdsoap2.cpp:11090-11168 | the records sent for a list of attachments, with ME on the last |
| Dime.PutDimeHdr | examples/WS_strManager/src/ws/stdsoap2.cpp:11046-11080 | header, options, id and type as sent, lengths clipped to 16 bits |
| Dime.PutDimeField | examples/WS_strManager/src/ws/stdsoap2.cpp:11007-11011 | the bytes and up to three zeros |
| Dime.Reader.GetDimeField | examples/WS_strManager/src/ws/stdsoap2.cpp:11176-11199 | n bytes and their padding, or an error exactly if the input is too short |
| Dime.Reader.GetDimeHdr | examples/WS_strManager/src/ws/stdsoap2.cpp:11209-11250 | a header with its fields, or the error the grammar gives |
| Dime.Reader.GetDime | examples/WS_strManager/src/ws/stdsoap2.cpp:11269-11364 | the whole list of records up to ME, or an error, as the grammar says |
| Mime.TwoPasses | examples/WS_strManager/src/ws/stdsoap2.cpp:4883-5006 | whatever the mode bits were and the attachments are: at least as much is announced as is sent, and the two agree if and only if, when DIME records are sent, no id or type has more than 65536 bytes |
| Mime.CountedIsSent | examples/WS_strManager/src/ws/stdsoap2.cpp:4886-5002 | however the two passes derive their modes, DIME records are counted if and only if they are sent, MIME parts as well, and with MTOM and DIME there are only parts |
| Mime.LongId | examples/WS_strManager/src/ws/stdsoap2.cpp:10952-10964 | with an id of 65537 bytes more is announced than is sent |
| Mime.DimeCountIsExact | examples/WS_strManager/src/ws/stdsoap2.cpp:10952-10964 | the count is never below the length of the records, and exact if and only if ids and types have at most 65536 bytes |
| Mime.MimeCountIsExact | examples/WS_strManager/src/ws/stdsoap2.cpp:10965-10994 | the count for the parts is the length of what is sent for them, every optional header included |
| Mime.RecordLength | examples/WS_strManager/src/ws/stdsoap2.cpp:11046-11168 | the length of a record from its padded fields |
| Mime.CountAttachments | examples/WS_strManager/src/ws/stdsoap2.cpp:10946-11000 | the two counts are added exactly for the encodings that are on |
| Mime.CountDime | examples/WS_strManager/src/ws/stdsoap2.cpp:10952-10964 | the loop adds header and padded fields of each attachment, options by their own length bytes |
| Mime.CountMime | examples/WS_strManager/src/ws/stdsoap2.cpp:10965-10994 | the loop adds delimiter, headers and content of each part, and the closing delimiter |
| Mime.PutMime | examples/WS_strManager/src/ws/stdsoap2.cpp:11678-11734 | the parts and the closing delimiter, in order |
| Mime.PutMimeHdr | examples/WS_strManager/src/ws/stdsoap2.cpp:11651-11668 | delimiter and headers of a part, each header only if it is given |
| Mime.PartBytes | examples/WS_strManager/src/ws/stdsoap2.cpp:11651-11734 | the bytes of a part with all headers, and the closing delimiter |
| Mime.BarePart | examples/WS_strManager/src/ws/stdsoap2.cpp:11651-11734 | and of one without headers |
| Mime.HeaderNames | examples/WS_strManager/src/ws/stdsoap2.cpp:11651-11668 | the names of the headers as they are sent |
| Mime.EncodingName | examples/WS_strManager/src/ws/stdsoap2.cpp:11651-11668 | and of the encoding |
| Mime.FirstLine | examples/WS_strManager/src/ws/stdsoap2.cpp:11524-11528 | what ends a content is the first line of two dashes and the boundary behind a line end |
| Mime.GetMimeContent | examples/WS_strManager/src/ws/stdsoap2.cpp:11503-11563 | what is stored are exactly the bytes before the first delimiter, for all near misses and block boundaries; zero bytes behind the delimiter are passed over, and the byte behind them is looked at; it fails exactly if there is none |
| Mime.ContentRoundTrip | examples/WS_strManager/src/ws/stdsoap2.cpp:11503-11734 | a content that is sent with the parts behind it, in any mode of sending and cut up in any way, is read up to the first delimiter in it, so it is read back if and only if it holds none |
| Mime.NextByte | examples/WS_strManager/src/ws/stdsoap2.cpp:11511-11544 | one step: a byte to store, and the pushed-back bytes that follow it; no delimiter is passed |
| Mime.AfterCarriageReturn | examples/WS_strManager/src/ws/stdsoap2.cpp:11523-11543 | the same after a carriage return |
| Mime.MatchPattern | examples/WS_strManager/src/ws/stdsoap2.cpp:11524-11537 | how much of the delimiter was read, and of the zero bytes behind it, and what is pushed back |
| Mime.PushedBack | examples/WS_strManager/src/ws/stdsoap2.cpp:11537-11541 | after a failed match, the bytes pushed back are the bytes read, and no delimiter begins among them |
| Mime.BrokenOff | examples/WS_strManager/src/ws/stdsoap2.cpp:11529-11541 | a delimiter that breaks off cannot hide the start of another one, but for a carriage return as last byte |
| Mime.ContentDelimited | examples/WS_strManager/src/ws/stdsoap2.cpp:11503-11563 | in a content with a delimiter behind it, the first delimiter is the first one inside the content, or the one behind it |
| Mime.PastContent | examples/WS_strManager/src/ws/stdsoap2.cpp:11651-11734 | behind the delimiter that the sender puts behind a content there is a byte other than zero, so the scan ends there |
| Mime.ContentReadBack | examples/WS_strManager/src/ws/stdsoap2.cpp:11651-11734 | so what the sender puts behind a content ends it exactly there, unless the content holds the delimiter |
| Base64.RoundTrip | examples/WS_strManager/src/ws/stdsoap2.cpp:13560-13676 | every byte string is decoded from its text with its exact length, with blanks put in anywhere before the padding |
| Base64.TextReadBack | examples/WS_strManager/src/ws/stdsoap2.cpp:13560-13676 | the same for the text as a value, by induction over groups of three bytes |
| Base64.InsertBlanks | examples/WS_strManager/src/ws/stdsoap2.cpp:13648-13661 | blanks before the padding change nothing |
| Base64.S2Base64 | examples/WS_strManager/src/ws/stdsoap2.cpp:13560-13596 | the text in groups of four with padding, zero-terminated, within (n + 2) / 3 * 4 + 1 bytes |
| Base64.PutGroups | examples/WS_strManager/src/ws/stdsoap2.cpp:13574-13581 | all whole groups, in order |
| Base64.PutTail | examples/WS_strManager/src/ws/stdsoap2.cpp:13583-13594 | the last one or two bytes, padded |
| Base64.PutGroup | examples/WS_strManager/src/ws/stdsoap2.cpp:13578-13579 | four letters for 24 bits, nothing else changed |
| Base64.Base642S | examples/WS_strManager/src/ws/stdsoap2.cpp:13604-13676 | the decoded bytes and their number, within the allocated length; a type error exactly for a character that is neither letter nor blank before the padding; no data for an empty string |
| Base64.NextGroup | examples/WS_strManager/src/ws/stdsoap2.cpp:13628-13662 | four letters, or what is left before the padding, or the error |
| Base64.UnpackConcat | examples/WS_strManager/src/ws/stdsoap2.cpp:13663-13665 | whole groups are decoded one by one |
| Base64.LetterOf | examples/WS_strManager/src/ws/stdsoap2.cpp:232 | the letters of the alphabet, in its order |
| Base64.NoLetter | examples/WS_strManager/src/ws/stdsoap2.cpp:233 | and what is no letter |
| Base64.ErrorExactly | examples/WS_strManager/src/ws/stdsoap2.cpp:13628-13662 | a text is refused exactly if something that is neither blank nor letter is in front of its padding and its end |
| Base64.GroupBits | examples/WS_strManager/src/ws/stdsoap2.cpp:13574-13581 | which bits of three bytes each of the four letters has |
| Base64.TestVectors | examples/WS_strManager/src/ws/stdsoap2.cpp:13560-13596 | the texts of f, fo and foo |
| Base64.LetterValue | examples/WS_strManager/src/ws/stdsoap2.cpp:232-233 | the two tables are inverse to each other |
| IdRef.Soap.Resolve | examples/WS_strManager/src/ws/stdsoap2.cpp:2192-2262 | fails exactly if a local id has no object; otherwise: the ids that still wait are the greatest set of ids that block each other, the rows are the old ones without the references and without what was served, every cell that refers to an id with an object holds the address this object was entered with, each place for a copy of an id that is not blocked holds what its object holds, and nothing else has changed |
| IdRef.AllServed | examples/WS_strManager/src/ws/stdsoap2.cpp:2220-2262 | everything is served if and only if no ids block each other |
| IdRef.MutualCopies | examples/WS_strManager/src/ws/stdsoap2.cpp:2225-2237 | two objects that are to be copies of each other both still wait, and there is no error |
| IdRun.RunAndResolve | examples/WS_strManager/src/ws/stdsoap2.cpp:2192-2262 | over every run of lookups, forwardings and entries in any order, on a new table, and resolving: it fails exactly if a local id is asked for and never entered; otherwise the ids that still wait are the greatest set of forwarded ids each of which is not entered or has a place in its object, before its end, that waits for one of the set; a cell that was looked up holds the address its id was entered with, before or after; a place holds what the object holds unless its id still waits; and no other word has changed |
| IdRun.ResolveBeside | examples/WS_strManager/src/ws/stdsoap2.cpp:2220-2262 | if every forwarded id is entered and no place lies in an object, nothing still waits and all copies are made |
| IdRun.SideBySide | examples/WS_strManager/src/ws/stdsoap2.cpp:2172-2176 | two objects of a word each with a place for the other right behind it: both copies are made |
| IdRun.BlockedCalls | examples/WS_strManager/src/ws/stdsoap2.cpp:2166-2182 | which sets of ids block each other, by the calls |
| IdRun.AcceptedExactly | examples/WS_strManager/src/ws/stdsoap2.cpp:5707-5898 | which calls are accepted, by the accepted calls before: a lookup unless an object of another kind was entered, a forwarding of the same kind and size, and an entry once, and of the same kind and size if places wait |
| IdRun.FirstAccepted | examples/WS_strManager/src/ws/stdsoap2.cpp:5707-5898 | the first call for an id is accepted |
| IdRun.OtherKind | examples/WS_strManager/src/ws/stdsoap2.cpp:5717-5722 | a cell that was looked up for one kind gets the address of an object of another kind that is entered later; a lookup after the entry is refused |
| IdRun.SameAt | examples/WS_strManager/src/ws/stdsoap2.cpp:2230 | what it means that two places hold the same, word by word |
| IdRun.ResolveReferences | examples/WS_strManager/src/ws/stdsoap2.cpp:2192-2219 | the same for runs without forwardings, where nothing is asked of the layout and every referring cell of an entered id is answered |
| IdRun.Perform | examples/WS_strManager/src/ws/stdsoap2.cpp:5707-5898 | the calls that are accepted are those a fold over the run accepts, the table then holds what the fold holds, and a word no accepted call is for stays |
| IdRun.Do | examples/WS_strManager/src/ws/stdsoap2.cpp:5707-5898 | one call, from any state: accepted or refused as the rows say, and the new rows and references |
| IdRun.AllNoted | examples/WS_strManager/src/ws/stdsoap2.cpp:5707-5898 | what an accepted call has brought about is kept by all later calls |
| IdRun.LayoutOf | examples/WS_strManager/src/ws/stdsoap2.cpp:5707-5898 | the layout that resolving needs follows from the places and sizes in the calls |
| IdRun.MissingUndefined | examples/WS_strManager/src/ws/stdsoap2.cpp:2213-2216 | after a run a local id has no object exactly if it was asked for and never entered |
| IdRef.KeptServed | examples/WS_strManager/src/ws/stdsoap2.cpp:2225-2225 | serving an id takes none out of a set of ids that block each other |
| IdRef.StuckBlocked | examples/WS_strManager/src/ws/stdsoap2.cpp:2259-2259 | when a pass serves no id, those that wait block each other |
| IdRef.Soap.ResolveLinks | examples/WS_strManager/src/ws/stdsoap2.cpp:2198-2219 | after the first part no id with an object has waiting cells; only referring cells have changed |
| IdRef.Soap.FillLinks | examples/WS_strManager/src/ws/stdsoap2.cpp:2201-2212 | every cell of a chain, threaded through the cells themselves, gets the address |
| IdRef.Soap.ResolveCopies | examples/WS_strManager/src/ws/stdsoap2.cpp:2220-2262 | the passes end, and what still waits then is the greatest set of ids that block each other |
| IdRef.Soap.CopyPass | examples/WS_strManager/src/ws/stdsoap2.cpp:2220-2259 | a pass serves at least one id, or none can be served |
| IdRef.Soap.CopyEntry | examples/WS_strManager/src/ws/stdsoap2.cpp:2224-2257 | an id is served as a whole exactly if its object has no waiting part |
| IdRef.Soap.FillCopies | examples/WS_strManager/src/ws/stdsoap2.cpp:2226-2237 | each place of the chain gets the object, though copying overwrites the link; all else stays |
| IdRef.Soap.HasCopies | examples/WS_strManager/src/ws/stdsoap2.cpp:2166-2182 | whether a place for a copy or for forwarding in the range still waits |
| IdRef.Soap.ServeForwards | examples/WS_strManager/src/ws/stdsoap2.cpp:2238-2258 | the places an object is forwarded to without a function of the caller get the object; all else stays, and the list is empty |
| IdRef.CopiesServed | examples/WS_strManager/src/ws/stdsoap2.cpp:2224-2259 | serving one id keeps all chains, all resolved cells, and all copies that were made before |
| IdRef.CopiesKept | examples/WS_strManager/src/ws/stdsoap2.cpp:2224-2237 | a copy that was made, and its object, are not touched by later copies |
| IdRef.LinksFilled | examples/WS_strManager/src/ws/stdsoap2.cpp:2201-2212 | filling one chain leaves the other chains as they are |
| IdRef.Soap.IdLookup | examples/WS_strManager/src/ws/stdsoap2.cpp:5707-5780 | a cell is answered, or joins the chain of its id in front; an object of another type is an error |
| IdRef.Soap.IdForward | examples/WS_strManager/src/ws/stdsoap2.cpp:5790-5837 | a place joins the chain of copies, or the list of forwardings with or without a function of the caller; a different type or size is an error |
| IdRef.Soap.IdEnter | examples/WS_strManager/src/ws/stdsoap2.cpp:5845-5898 | an object is entered once; a second one is an error, and so is another type or size while copies wait |
| IdRef.Soap.Lookup | examples/WS_strManager/src/ws/stdsoap2.cpp:5359-5366 | the entry of an id in its bucket, or none |
| IdRef.Soap.Enter | examples/WS_strManager/src/ws/stdsoap2.cpp:5375-5386 | a new entry in front of its bucket |
| Argz.InsertInOrder | libltdl/ltdl.c:1669-1718 | the vector becomes the list with the entry in its place |
| Argz.InsertedAscending | libltdl/ltdl.c:1700-1718 | an ascending list stays ascending, its set of strings grows by the entry, and it does not change if the entry was there |
| Argz.AllInsertedSorted | libltdl/ltdl.c:1700-1718 | any run of insertions leaves the inserted strings, each once, in ascending order |
| Argz.InsertionOrder | libltdl/ltdl.c:1700-1718 | the order of the insertions does not matter |
| Argz.AscendingUnique | libltdl/ltdl.c:1700-1718 | a set of strings has one ascending list |
| Argz.InsertAll | libltdl/ltdl.c:1669-1718 | a run of insertions into an empty vector, as a vector that decodes to this list |
| Argz.SplitJoin | libltdl/argz.c:80-225 | split and joined: leading delimiters dropped and runs folded; split again: the same strings |
| Argz.SplitAgain | libltdl/argz.c:80-225 | the pieces of the joined string are the pieces |
| Argz.NothingToFold | libltdl/argz.c:89-125 | splitting and joining gives the string back if and only if there is no leading and no double delimiter |
| Argz.MarkedPieces | libltdl/argz.c:95-116 | what the splitting loop writes are the words, and an empty string if the string ends with a delimiter or has no word |
| Argz.DelimiterAtEnd | libltdl/argz.c:95-116 | a word and a delimiter are split into the word and an empty string |
| Argz.WordsFirst | libltdl/argz.c:95-116 | a delimiter in front is passed over, and a word goes up to the next delimiter |
| Argz.WordsSnoc | libltdl/argz.c:100-112 | how one more byte changes the words |
| Argz.StringifyGlues | libltdl/argz.c:212-225 | joining gives the strings with separators if and only if the first of several is not empty |
| Argz.EmptyNotGlued | libltdl/argz.c:211-225 | an empty string in front of another one: the zero after it stays, so the two are not joined |
| Argz.Vector.Append | libltdl/argz.c:48-76 | the bytes at the end |
| Argz.Vector.CreateSep | libltdl/argz.c:79-128 | the vector of the pieces, of exactly its length |
| Argz.Vector.Insert | libltdl/argz.c:131-175 | the entry in front of the string that the pointer is in, or at the end |
| Argz.Vector.Next | libltdl/argz.c:177-208 | where the next string begins, or none |
| Argz.Stringify | libltdl/argz.c:211-225 | separators for all zeros but the first byte and the last |
| Argz.EntriesPack | libltdl/argz.c:177-208 | a list of strings is decoded from its vector |
| Argz.EntryAt | libltdl/argz.c:177-208 | the string number k, its end and the next one in the vector |
| Argz.StringAt | libltdl/argz.c:177-208 | the string that a pointer into the vector shows |
| Argz.NextAt | libltdl/argz.c:177-208 | from the string number k to the next one |
| Argz.InsertEntry | libltdl/argz.c:158-172 | bytes put in where a string begins are a string put into the list |
| Argz.StartAt | libltdl/argz.c:147-148 | any place in a string leads back to its start |
| Argz.CompareLess | libltdl/ltdl.c:1711-1714 | a string is before another one exactly if it is a proper prefix of it, or has a smaller byte where they first differ |
| Argz.CompareEqual | libltdl/ltdl.c:1711-1714 | the comparison is 0 exactly for equal strings, and antisymmetric |
| Argz.CompareTransitive | libltdl/ltdl.c:1711-1714 | and transitive |
| Paths.CanonicalizePath | libltdl/ltdl.c:569-627 | the canonical form as a zero-terminated string within the allocated length |
| Paths.AllWritten | libltdl/ltdl.c:581-617 | what the loop writes is the list of elements in normal form, without the elements of only slashes in front |
| Paths.ElementWritten | libltdl/ltdl.c:596-616 | an element is written with single slashes and none at its end |
| Paths.CanonicalTidy | libltdl/ltdl.c:584-616 | no separator in front, and a plain character after each slash |
| Paths.Idempotent | libltdl/ltdl.c:569-627 | canonicalising again changes nothing if and only if no element of only slashes comes after another element |
| Paths.CanonicalTwice | libltdl/ltdl.c:569-627 | the path a:/:b becomes a::b, and that a:b |
| Paths.CanonicalPieces | libltdl/ltdl.c:629-714 | the strings enumerated for any path: the elements with something else than slashes, in order, and an empty one if the last element has only slashes or there is none |
| Paths.AllElements | libltdl/ltdl.c:629-714 | without elements of only slashes: all elements in normal form, and nothing else |
| Paths.ForEachDirInPath | libltdl/ltdl.c:661-714 | the names the callback gets |
| Paths.EmptyName | libltdl/ltdl.c:661-714 | in the path a:/ an empty name is enumerated behind a |
| Paths.NormNames | libltdl/ltdl.c:596-616 | the normal form of an element are the names between its slashes, joined by one slash each, with one in front if there was one |
| Paths.CanonicalFrom | libltdl/ltdl.c:584-595 | of the elements those in front that have only slashes are left out, and no others |
| Paths.NormTwice | libltdl/ltdl.c:596-616 | the normal form is its own normal form and never a lone slash |
| HandleTable.Table.Open | libltdl/ltdl.c:358-472 | opens, counts or refuses; the table stays a list if and only if the module was not closed once more than opened, else its handle is linked in twice |
| HandleTable.Table.Register | libltdl/ltdl.c:1462-1472 | a new handle in front; a handle that is in the list makes it run in a circle |
| HandleTable.Table.Find | libltdl/ltdl.c:374-389 | the handle with this file name, or none; the program itself has no name |
| HandleTable.Table.Load | libltdl/ltdl.c:420-463 | loaded exactly if one of the loaders can load it |
| HandleTable.Table.Close | libltdl/ltdl.c:1898-1959 | counts down, takes a module out that is not resident and not in use, refuses an unknown handle, and reports a resident one |
| HandleTable.Table.Unlink | libltdl/ltdl.c:1929-1936 | the handle is taken out, the order of the others stays |
| HandleTable.Table.Exit | libltdl/ltdl.c:254-316 | the last call leaves exactly the resident modules with one in front of them that is not resident, in their order and with their counts, and returns the number of modules that are not resident and whose closing fails |
| HandleTable.Table.CloseAll | libltdl/ltdl.c:278-316 | the passes end, with the resident modules left, and count the closings that fail |
| HandleTable.Table.ClosePass | libltdl/ltdl.c:280-316 | a pass takes away a use, or the level is below the number of uses left; resident modules stay |
| HandleTable.RunCounts | libltdl/ltdl.c:358-472 | in every run the names are different, and a count is the number of openings less the number of closings |
| HandleTable.NotInUse | libltdl/ltdl.c:1925-1949 | a module that is not resident is in the table exactly while it is in use |
| HandleTable.Perform | libltdl/ltdl.c:358-472 | every run that closes nothing more often than it was opened is performed by the linked table |
| HandleTable.Act | libltdl/ltdl.c:358-472 | one call, for a module that was not closed more often than opened |
| HandleTable.Overclose | libltdl/ltdl.c:1462-1472 | a resident module that is opened, closed twice and opened again: the links run in a circle |
| HandleTable.Forgotten | libltdl/ltdl.c:262-276 | a resident module that was opened last, and so is in the table, is no longer in it after the last lt_dlexit |
| HandleTable.TwoForgotten | libltdl/ltdl.c:273-276 | two resident modules in front of one that is not: the table is empty in the end |
| HandleTable.SurvivesSkip | libltdl/ltdl.c:273-296 | a module is still there after the last call exactly if it is resident and one in front of it is not |
| HandleTable.SkippedAt | libltdl/ltdl.c:273-276 | the modules in front of the first one that is not resident are skipped |
| HandleTable.ResidentsConcat | libltdl/ltdl.c:289-296 | the resident modules of two parts of a table follow each other in order |
| HandleTable.OpenedNew | libltdl/ltdl.c:1462-1472 | a new module comes in front, and all others stay |
| HandleTable.OpenedAgain | libltdl/ltdl.c:374-389 | one that is open is counted |
| HandleTable.ClosedOnce | libltdl/ltdl.c:1925-1949 | closing counts down, and takes away a module that is not resident and not in use |
| HandleTable.StepCount | libltdl/ltdl.c:358-389 | how one call changes a count |
| HandleTable.ClosedResidents | libltdl/ltdl.c:289-296 | closing a module that is not resident takes away one use and no resident module |
| HandleTable.Around | libltdl/ltdl.c:1466-1472 | a handle linked in twice is reached again from itself |
| SList.Merge | libltdl/slist.c:272-296 | the links, rewritten in place, make the merged list of exactly the given items |
| SList.MergedSorted | libltdl/slist.c:272-296 | under a total preorder two sorted lists give a sorted one |
| SList.MergedItems | libltdl/slist.c:272-296 | a permutation of the items |
| SList.MergedKeepsOrder | libltdl/slist.c:272-296 | the items of each list keep their order |
| SList.MergedStable | libltdl/slist.c:272-296 | an item of the second list only comes before one of the first if it is less |
| SList.Split | libltdl/slist.c:313-326 | the first n / 2 items and the others; a single item stays in the first half |
| StreamLists.StreamList.AddDestination | src/streamlists/StreamList.cpp:68-76 | the destination itself comes behind all others exactly if its id is new |
| StreamLists.StreamList.FindDestination | src/streamlists/StreamList.cpp:105-122 | the place of the first destination with this id, or the end |
| StreamLists.StreamList.ExistDestination | src/streamlists/StreamList.cpp:124-138 | whether the id is there |
| StreamLists.StreamList.RemDestination | src/streamlists/StreamList.cpp:153-163 | this destination goes, the others stay in order |
| StreamLists.ListedExactly | src/streamlists/StreamList.cpp:68-163 | after any run of additions and removals a list holds exactly the destinations that were added under an id that was free and were not removed since |
| StreamLists.AddedIs | src/streamlists/StreamList.cpp:68-76 | the list with the destination itself at its end, or unchanged |
| StreamLists.RemovedIs | src/streamlists/StreamList.cpp:153-163 | the list without one destination with this id, or unchanged |
| StreamLists.AddedUnique | src/streamlists/StreamList.cpp:68-76 | ids stay unique, and only this destination is added |
| StreamLists.RemovedUnique | src/streamlists/StreamList.cpp:153-163 | ids stay unique, and only the destination with this id goes |
| StreamLists.AddedRemoved | src/streamlists/StreamList.cpp:68-163 | removing a new destination restores the list |
| Registry.Worker.AddSource | src/workers/Worker.cpp:306-338 | all five tables stay in agreement; a source is added exactly if its address is new and its port is or can be opened |
| Registry.Worker.RemoveSource | src/workers/Worker.cpp:340-349 | all five tables stay in agreement without this source; its port is closed with its last source |
| Registry.Worker.AddDestination | src/workers/Worker.cpp:360-378 | the destination is added to this list and no other |
| Registry.Worker.RemoveDestination | src/workers/Worker.cpp:380-396 | the destination goes from this list and no other |
| Registry.ForwardAfter | src/workers/ForwardWorker.cpp:37-84 | after any run of requests a port is open exactly if a source joined with it and has not left, and a packet that comes in there goes on, as it is, to exactly the addresses of the destinations of the source with the sender's ip and this port |
| Registry.Process | src/workers/ForwardWorker.cpp:37-84 | a packet goes to each destination of the list its source address leads to, and nowhere if there is none |
| Registry.DestinationsAre | src/workers/Worker.cpp:360-396 | after a run a list holds exactly the destinations that were asked for under a free id and not removed since, at the ip asked for and the port modulo 65536 |
| Registry.SourcesAre | src/workers/Worker.cpp:306-349 | after a run the sources are exactly those that joined at a free address, with a port that was open or could be opened, and have not left |
| Registry.ServeAll | src/workers/Worker.cpp:306-396 | over every run of requests in order, with ports that can be opened and ports that cannot, the five tables stay in agreement, a port is open exactly while it has sources, and the lists found by id and by address hold what the requests say |
| Registry.Serve | src/workers/Worker.cpp:306-396 | the same for one request, from any state |
| Registry.CountsMore | src/workers/Worker.cpp:96-125 | one more source and listener keeps the counts of all ports |
| Registry.CountsLess | src/workers/Worker.cpp:127-158 | one less keeps them, and closes the port with the last one |
| Registry.Worker.AddSocket | src/workers/Worker.cpp:96-125 | one more listener, or a new port with its descriptor; the two tables of ports and descriptors stay inverse |
| Registry.Worker.RemoveSocket | src/workers/Worker.cpp:127-158 | one listener less; the last one closes the port |
| Registry.Worker.AddStreamList | src/workers/Worker.cpp:260-264 | the list by id and its id by address |
| Registry.Worker.RemoveStreamList | src/workers/Worker.cpp:266-274 | neither the list nor its address is left |
| Registry.Worker.GetListIdBySocket | src/workers/Worker.cpp:402-404 | the id of the list with this address, or 0 exactly if there is none, though the lookup itself puts in a zero |
| Registry.Worker.GetStreamListBySocket | src/workers/Worker.cpp:406-408 | the one list with this address, or none |
| Registry.Worker.GetStreamList | src/workers/Worker.cpp:398-400 | the list, or none, though the lookup puts in an entry |
| Registry.OneMore | src/workers/Worker.cpp:99-121 | one more source on a port is one more listener |
| Registry.OneLess | src/workers/Worker.cpp:132-150 | and one less |
| Registry.ForwardsLess | src/workers/Worker.cpp:266-274 | removing a list leaves the address table the inverse of the others |
| Rtcp.RtcpWorker.AddSource | src/workers/RtcpWorker.cpp:38-83 | the pairs of ports and of lists are kept if and only if no port is opened by mistake: when the two ports cannot be opened but the upper one and the next can |
| Rtcp.RtcpWorker.RemoveSource | src/workers/RtcpWorker.cpp:85-97 | both lists go, both ports lose a listener or are closed, and then the upper one is left with -1 listeners; the pairs are kept |
| Rtcp.RtcpWorker.AddDestination | src/workers/RtcpWorker.cpp:99-125 | the second list gets the same destination with id and port raised by one, or neither list changes |
| Rtcp.RtcpWorker.RemoveDestination | src/workers/RtcpWorker.cpp:127-147 | both lists lose the destination, or neither |
| Rtcp.RtcpWorker.AddSocket | src/workers/RtcpWorker.cpp:149-184 | a listener more, or both ports opened with one listener each, or nothing if one cannot be opened |
| Rtcp.RtcpWorker.RemoveSocket | src/workers/RtcpWorker.cpp:186-219 | a listener less; the last one closes both ports |
| Rtcp.RtcpWorker.AddSockets | src/workers/RtcpWorker.cpp:69-71 | after both calls: counts n + 1 and n + 2, or unchanged pairs, or a stray port |
| Rtcp.RtcpWorker.RemoveSockets | src/workers/RtcpWorker.cpp:91-92 | after both calls the pairs hold for the sources that are left; the count of a closed upper port is left at -1 |
| Rtcp.Perform | src/workers/RtcpWorker.cpp:38-219 | over every run of calls in order, with the ports that are asked for, the tables hold what the calls say, an even port is open exactly if a source has it and so is the one above, the counts are the number of sources and one more, and each second list is the first with ids and ports raised by one |
| Rtcp.DestinationsAre | src/workers/RtcpWorker.cpp:99-147 | after a run the first list of a source holds exactly the destinations that were asked for under a free id and not removed since, at the ip asked for and the port modulo 65536 |
| Rtcp.UpperDestinationsAre | src/workers/RtcpWorker.cpp:99-147 | and the second list for each of them the one with the id above, the same ip and the port above |
| Rtcp.SourcesAre | src/workers/RtcpWorker.cpp:38-97 | after a run the sources are exactly those that came at a free address and have not gone, each with a second source at the port above |
| Rtcp.Act | src/workers/RtcpWorker.cpp:38-147 | the same for one call, from any state |
| Rtcp.PairAdded | src/workers/RtcpWorker.cpp:38-83 | one more source keeps the counts of all pairs of ports |
| Rtcp.PairRemoved | src/workers/RtcpWorker.cpp:85-97 | one source less keeps them |
| Rtcp.StrayBreaks | src/workers/RtcpWorker.cpp:69-71 | an open upper port without sources is no pair |
| Rtcp.StrayPort | src/workers/RtcpWorker.cpp:38-83 | a new worker that can open neither port of a source, but the upper one and the next when asked again, has an open port and no source |
| Rtcp.MinusOne | src/workers/RtcpWorker.cpp:186-219 | a source comes and goes: the upper port has -1 listeners |
| Rtcp.RaisedAdded | src/workers/RtcpWorker.cpp:105-120 | raising ids and ports commutes with adding a destination |
| Rtcp.RaisedRemoved | src/workers/RtcpWorker.cpp:136-138 | and with removing one |

## Left out

- SoapOutput.Output.SendRaw: does not model SOAP_IO_STORE, whose block store is modelled on its own, and the callbacks before sending.
- SoapOutput.Output.FlushRaw: does not model SOAP_IO_STORE.
- SoapOutput.Output.EndSend: does not model SOAP_IO_STORE and the attachments that are sent first; those are modelled in `Dime.PutDime` and `Mime.PutMime`.
- zlib, SSL, UDP, the plug-in callbacks around sending and receiving, logging, and failures of `fsend`: foreign calls.
- Allocation failure: memory is taken to be there.
- The wrap-around of `size_t` totals; that of the running chunk size does wrap in the model, at 2^64.
- HTTP headers, cookies, SOAP envelopes, DOM, canonical attribute order, numbers and dates: outside the three parts.
- The flags for Latin-1, multi-byte and UTF-8 strings, strict lengths and canonical output. The table of entity names is a parameter.
- XmlLexer.Lexer.Get: promises nothing for an input that ends in an open bracket or in the middle of the closing of a CDATA section, where the source steps back in an empty buffer, and for an XML declaration, which may switch to Latin-1.
- XmlLexer.Lexer.GetFrom: the same cases as for `XmlLexer.Lexer.Get`.
- Utf8.GetUtf8: promises nothing for a sequence that the end of the input cuts off, besides the cases of the lexer; Latin-1 is not modelled.
- XmlText.StringIn: requires that these cases do not occur before the text ends, and that no code is pushed back after the end of the input has been met, for this end is forgotten then and reading goes on behind it.
- XmlText.GetAttrVal: requires the same of the value.
- XmlText.AttributeValue: requires the same of the value.
- XmlText.SectionInText: is for sections of ASCII characters, because bytes from 0x80 on are read as UTF-8 there; `XmlText.StringIn` covers them.
- Base64.Base642S: only into memory of its own; for a buffer of the caller the check of the room comes after the bytes were stored. The two tables are functions here.
- Dime.Reader.GetDimeHdr: does not model the path inside of a chunked record.
- Dime.Reader.GetDime: reports a record with the CF flag and does not read its further chunks.
- Streaming callbacks for attachments, MIME headers on input, and `soap_resolve_attachment`.
- Mime.GetMimeContent: requires a boundary of 7-bit characters without a carriage return, and that the delimiter and the zero bytes behind it fit the scan's buffer of 1024 bytes, which it leaves otherwise.
- Mime.ContentRoundTrip: requires the same of a delimiter inside the content.
- The check of boundaries for absence from the content (`soap_valid_mime_boundary`) skips the last position, so absence is a condition in `Mime.ContentReadBack`.
- BlockStore.Store.SaveBlock: does not model `soap_update_ptrs`, which moves references when blocks are moved.
- IdRef.Soap.IdLookup: references through more than one pointer (levels) are not modelled; memory is a map of words, so sizes are numbers of words. A cell is used for one reference.
- IdRef.Soap.IdForward: levels, and the types and lengths in an entry of `flist`, are not modelled; an object of less than a word has no words to copy.
- IdRun.RunAndResolve: requires that no two calls are for the same cell, and the layout that `IdRef.Soap.Resolve` requires, as the places and sizes of the calls.
- IdRef.Soap.Resolve: requires that places for copies do not overlap each other or referring cells, and lie apart from or wholly inside the objects that are copied. What the caller's functions for forwarding write is not in the memory of the model.
- IdRef.Soap.IdEnter: levels are not modelled; `finstantiate` and `soap_malloc` are a parameter, the new address.
- `soap_update_ptrs`, the pointer hash table for sending, and multi-reference accessors on output.
- HandleTable.Table.Open: how a file is found, `.la` files, preloaded symbols and the loaders themselves are a parameter that says which loaders can load the module; dependencies between modules are those of the build without `LTDL_DLOPEN_DEPLIBS`, none.
- HandleTable.Table.Exit: does not model the closing of the loaders after the modules.
- `lt_dlhandle_map` and its iterators: the loop does not advance after a successful callback.
- Paths.ForEachDirInPath: without a base name, and for a callback that goes on to the end; the file name is the directory name then. There is no second directory separator on this platform.
- SList.Split: the recursion of `slist_sort` around it does not end for a list with an item, because one item is split into itself and nothing; so only the split and the merge are modelled. Boxes, find, remove and map are left out as easy.
- Registry.Worker.AddSource: requires a new id that is not 0, because 0 means "not found" in the address table, a port of 16 bits and a new descriptor; sockets are parameters.
- Registry.Worker.RemoveSource: does not model the message and the end of the thread when the worker has no list left.
- Registry.Process: for a packet that was received; errors of `recvfrom`, time stamps and selecting are not modelled.
- `conmuteStreamList`, `conmuteUdpStream`, `popDestination` and printing: they assume ids that exist, or would only add easy members. Locks are left out: each operation holds the one mutex throughout.
- Rtcp.RtcpWorker.AddSource: requires an even port and a pair of ids of its own, as RTP has it.
- Manager, Message, the statistics workers, the SOAP service and the example programs: thin layers over the parts above.
