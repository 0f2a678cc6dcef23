/** UTF-8 (section 2 of RFC 2279) as soap_pututf8 writes and soap_getutf8 reads it. */
module Utf8 {
  import opened Bytes
  import opened Transport
  import opened SoapOutput
  import opened SoapInput
  import opened ChunkedTransfer
  import opened XmlLexer

  /** A continuation byte: 0x80 | ((c >> k) & 0x3F), with the shift written as a division */
  function More(c: nat): byte {
    0x80 + c % 0x40
  }

  /** The bytes of soap_pututf8 for a code of at least 0x80 in canonical mode. */
  function Bytes8(c: nat): seq<byte> {
    if c < 0x800 then [0xC0 + c / 0x40 % 0x20, More(c)]
    else if c < 0x1_0000 then [0xE0 + c / 0x1000 % 0x10, More(c / 0x40), More(c)]
    else if c < 0x20_0000 then [0xF0 + c / 0x4_0000 % 8, More(c / 0x1000), More(c / 0x40), More(c)]
    else if c < 0x400_0000 then
      [0xF8 + c / 0x100_0000 % 4, More(c / 0x4_0000), More(c / 0x1000), More(c / 0x40), More(c)]
    else
      [0xFC + c / 0x4000_0000 % 2, More(c / 0x100_0000), More(c / 0x4_0000), More(c / 0x1000), More(c / 0x40), More(c)]
  }

  /** sprintf "%lu" */
  function Decimal(n: nat): (s: seq<byte>)
    ensures s != []
  {
    if n < 10 then [48 + n] else Decimal(n / 10) + [48 + n % 10]
  }

  /** What soap_pututf8 sends for a code: itself, UTF-8 in canonical mode, else a reference. */
  function Sent(c: nat, canonical: bool): seq<byte> {
    if 0x20 <= c < 0x80 then [c]
    else if c >= 0x80 && canonical then Bytes8(c)
    else [38, 35] + Decimal(c) + [59]
  }

  /** Printable ASCII characters are sent as they are, whatever the mode. */
  lemma SentAscii(c: nat, canonical: bool)
    requires 32 <= c <= 127
    ensures Sent(c, canonical) == [c]
  {
  }

  /** soap_pututf8 */
  method PutUtf8(output: Output, c: nat, canonical: bool)
    requires output.Valid()
    modifies output, output.buf, output.sock`output
    ensures output.Valid() && output.sent == old(output.sent) + Sent(c, canonical)
  {
    hide Output.Valid, More, Decimal;
    var tmp: seq<byte> := [];
    if 0x20 <= c < 0x80 {
      output.SendRaw([c]);
      return;
    }
    if c >= 0x80 && canonical {
      if c < 0x800 {
        tmp := tmp + [0xC0 + c / 0x40 % 0x20];
      } else {
        if c < 0x1_0000 {
          tmp := tmp + [0xE0 + c / 0x1000 % 0x10];
        } else {
          if c < 0x20_0000 {
            tmp := tmp + [0xF0 + c / 0x4_0000 % 8];
          } else {
            if c < 0x400_0000 {
              tmp := tmp + [0xF8 + c / 0x100_0000 % 4];
            } else {
              tmp := tmp + [0xFC + c / 0x4000_0000 % 2];
              tmp := tmp + [More(c / 0x100_0000)];
            }
            tmp := tmp + [More(c / 0x4_0000)];
          }
          tmp := tmp + [More(c / 0x1000)];
        }
        tmp := tmp + [More(c / 0x40)];
      }
      tmp := tmp + [More(c)];
    } else {
      tmp := [38, 35] + Decimal(c) + [59];
    }
    output.SendRaw(tmp);
  }

  /** c & 0x3F, also for EOF */
  function LowSix(c: int): nat {
    c % 0x40
  }

  /** The first character of an input that is read as UTF-8, and where the lexer stands then.
      It is unclear if the end of the input cuts it off. */
  function Read8(p: Pos, entities: map<seq<byte>, nat>): (l: Lexeme)
    ensures l.Lexeme? ==> l.next.Size() < p.Size()
    decreases p.Size()
  {
    if p.peek > 0xFF then Lexeme(p.peek, Pos(0, p.rest, p.cdata))
    else match Lex(p, entities)
      case End => End
      case Unclear => Unclear
      case Lexeme(c, next) => if c < 0x80 then Lexeme(c, next) else Sequence(c, next, entities)
  }

  /** The same from behind the first byte, which is not an ASCII character. */
  function Sequence(c: int, p: Pos, entities: map<seq<byte>, nat>): (l: Lexeme)
    requires 0x80 <= c
    ensures l.Lexeme? ==> l.next.Size() <= p.Size()
    decreases p.Size()
  {
    var r := p.rest;
    if r == [] then Unclear
    else if r[0] < 0x80 then Lexeme(c, p)
    else if c < 0xE0 then Lexeme(c % 0x20 * 0x40 + LowSix(r[0]), p.On(1))
    else if |r| < 2 then Unclear
    else if c == 0xEF && LowSix(r[0]) == 0x3B && LowSix(r[1]) == 0x3F then Read8(p.On(2), entities)
    else if c < 0xF0 then Lexeme(c % 0x10 * 0x1000 + LowSix(r[0]) * 0x40 + LowSix(r[1]), p.On(2))
    else if |r| < 3 then Unclear
    else if c < 0xF8 then
      Lexeme(c % 8 * 0x4_0000 + LowSix(r[0]) * 0x1000 + LowSix(r[1]) * 0x40 + LowSix(r[2]), p.On(3))
    else if |r| < 4 then Unclear
    else if c < 0xFC then
      Lexeme(c % 4 * 0x100_0000 + LowSix(r[0]) * 0x4_0000 + LowSix(r[1]) * 0x1000 + LowSix(r[2]) * 0x40
             + LowSix(r[3]), p.On(4))
    else if |r| < 5 then Unclear
    else
      Lexeme(c % 2 * 0x4000_0000 + LowSix(r[0]) * 0x100_0000 + LowSix(r[1]) * 0x4_0000 + LowSix(r[2]) * 0x1000
             + LowSix(r[3]) * 0x40 + LowSix(r[4]), p.On(5))
  }

  function OnOrEnd(p: Pos, n: nat): Pos {
    if n <= |p.rest| then p.On(n) else Pos(EOF, [], false)
  }

  /** soap_getutf8 behind the first byte c of a character; `again` after a byte order mark */
  method GetSequence(lexer: Lexer, c: int) returns (again: bool, r: int, ghost next: Pos)
    requires lexer.input.Valid() && lexer.input.ahead == 0 && c >= 0x80
    modifies lexer.input, lexer.input.buf, lexer.input.sock`input
    ensures again ==> lexer.At(next) && next.Size() <= |old(lexer.input.Rest())| && next.peek <= 0
    ensures var l := Sequence(c, Pos(0, old(lexer.input.Rest()), lexer.cdata), lexer.entities);
      || l.Unclear?
      || (if again then l == Read8(next, lexer.entities) else l == Lexeme(r, next) && lexer.At(next))
  {
    hide Input.Rest, Input.Valid, Read8, LowSix;
    var input := lexer.input;
    next := Pos(0, input.Rest(), lexer.cdata);
    ghost var p := next;
    var c1 := input.Get1();
    if c1 < 0x80 {
      input.RevGet1();
      return false, c, next;
    }
    next := p.On(1);
    c1 := LowSix(c1);
    if c < 0xE0 {
      return false, c % 0x20 * 0x40 + c1, next;
    }
    var c2 := input.Get1();
    next := OnOrEnd(p, 2);
    c2 := LowSix(c2);
    if c == 0xEF && c1 == 0x3B && c2 == 0x3F {
      return true, 0, next;
    }
    if c < 0xF0 {
      return false, c % 0x10 * 0x1000 + c1 * 0x40 + c2, next;
    }
    var c3 := input.Get1();
    next := OnOrEnd(p, 3);
    c3 := LowSix(c3);
    if c < 0xF8 {
      return false, c % 8 * 0x4_0000 + c1 * 0x1000 + c2 * 0x40 + c3, next;
    }
    var c4 := input.Get1();
    next := OnOrEnd(p, 4);
    c4 := LowSix(c4);
    if c < 0xFC {
      return false, c % 4 * 0x100_0000 + c1 * 0x4_0000 + c2 * 0x1000 + c3 * 0x40 + c4, next;
    }
    var c5 := input.Get1();
    next := OnOrEnd(p, 5);
    r := c % 2 * 0x4000_0000 + c1 * 0x100_0000 + c2 * 0x4_0000 + c3 * 0x1000 + c4 * 0x40 + LowSix(c5);
    again := false;
  }

  /** soap_getutf8 without SOAP_ENC_LATIN */
  method GetUtf8(lexer: Lexer, ghost p: Pos) returns (c: int)
    requires lexer.At(p)
    modifies lexer`cdata, lexer.input, lexer.input.buf, lexer.input.sock`input
    ensures match Read8(p, lexer.entities)
            case Unclear => true
            case End => c == EOF && lexer.At(Pos(EOF, [], false))
            case Lexeme(k, next) => c == k && lexer.At(next)
  {
    hide Input.Rest, Input.Valid, Lex, Sequence;
    var input := lexer.input;
    c := input.ahead;
    if c > 0xFF {
      input.Unget(0);
      return;
    }
    ghost var pos, whole := p, Read8(p, lexer.entities);
    while true
      invariant lexer.At(pos) && pos.peek <= 0xFF && (whole.Unclear? || whole == Read8(pos, lexer.entities))
      decreases pos.Size()
    {
      c := lexer.Get(pos);
      if c < 0x80 {
        return;
      }
      var again;
      again, c, pos := GetSequence(lexer, c);
      if !again {
        return;
      }
    }
  }

  // ---------- writing and reading agree ----------

  const BOM: nat := 0xFEFF

  /** The first byte of a sequence, in content and in a CDATA section */
  lemma ReadFirst(a: byte, rest: seq<byte>, cdata: bool, entities: map<seq<byte>, nat>)
    requires a >= 0x80
    ensures Read8(Pos(0, [a] + rest, cdata), entities) == Sequence(a, Pos(0, rest, cdata), entities)
  {
    hide Sequence;
    assert ([a] + rest)[1..] == rest;
    assert Lex(Pos(0, [a] + rest, cdata), entities) == Lexeme(a, Pos(0, rest, cdata));
  }

  // Sequences of two to six bytes, whatever their payload bits are.

  lemma Read2(a: byte, b: byte, rest: seq<byte>, cdata: bool, entities: map<seq<byte>, nat>)
    requires 0xC0 <= a < 0xE0 && 0x80 <= b
    ensures Read8(Pos(0, [a, b] + rest, cdata), entities) == Lexeme(a % 0x20 * 0x40 + LowSix(b), Pos(0, rest, cdata))
  {
    hide Lex, LowSix, Read8;
    assert [a, b] + rest == [a] + ([b] + rest);
    ReadFirst(a, [b] + rest, cdata, entities);
    assert ([b] + rest)[1..] == rest;
  }

  lemma Read3(a: byte, b: byte, c: byte, rest: seq<byte>, cdata: bool, entities: map<seq<byte>, nat>)
    requires 0xE0 <= a < 0xF0 && 0x80 <= b
    ensures Read8(Pos(0, [a, b, c] + rest, cdata), entities) ==
      if a == 0xEF && LowSix(b) == 0x3B && LowSix(c) == 0x3F then Read8(Pos(0, rest, cdata), entities)
      else Lexeme(a % 0x10 * 0x1000 + LowSix(b) * 0x40 + LowSix(c), Pos(0, rest, cdata))
  {
    hide Lex, LowSix, Read8;
    assert [a, b, c] + rest == [a] + ([b, c] + rest);
    ReadFirst(a, [b, c] + rest, cdata, entities);
    assert ([b, c] + rest)[2..] == rest;
  }

  lemma Read4(a: byte, b: byte, c: byte, d: byte, rest: seq<byte>, cdata: bool, entities: map<seq<byte>, nat>)
    requires 0xF0 <= a < 0xF8 && 0x80 <= b
    ensures Read8(Pos(0, [a, b, c, d] + rest, cdata), entities) ==
      Lexeme(a % 8 * 0x4_0000 + LowSix(b) * 0x1000 + LowSix(c) * 0x40 + LowSix(d), Pos(0, rest, cdata))
  {
    hide Lex, LowSix, Read8;
    assert [a, b, c, d] + rest == [a] + ([b, c, d] + rest);
    ReadFirst(a, [b, c, d] + rest, cdata, entities);
    assert ([b, c, d] + rest)[3..] == rest;
  }

  lemma Read5(a: byte, b: byte, c: byte, d: byte, e: byte, rest: seq<byte>, cdata: bool,
              entities: map<seq<byte>, nat>)
    requires 0xF8 <= a < 0xFC && 0x80 <= b
    ensures Read8(Pos(0, [a, b, c, d, e] + rest, cdata), entities) ==
      Lexeme(a % 4 * 0x100_0000 + LowSix(b) * 0x4_0000 + LowSix(c) * 0x1000 + LowSix(d) * 0x40 + LowSix(e),
             Pos(0, rest, cdata))
  {
    hide Lex, LowSix, Read8;
    assert [a, b, c, d, e] + rest == [a] + ([b, c, d, e] + rest);
    ReadFirst(a, [b, c, d, e] + rest, cdata, entities);
    assert ([b, c, d, e] + rest)[4..] == rest;
  }

  lemma Read6(a: byte, b: byte, c: byte, d: byte, e: byte, f: byte, rest: seq<byte>, cdata: bool,
              entities: map<seq<byte>, nat>)
    requires 0xFC <= a && 0x80 <= b
    ensures Read8(Pos(0, [a, b, c, d, e, f] + rest, cdata), entities) ==
      Lexeme(a % 2 * 0x4000_0000 + LowSix(b) * 0x100_0000 + LowSix(c) * 0x4_0000 + LowSix(d) * 0x1000
             + LowSix(e) * 0x40 + LowSix(f), Pos(0, rest, cdata))
  {
    hide Lex, LowSix, Read8;
    assert [a, b, c, d, e, f] + rest == [a] + ([b, c, d, e, f] + rest);
    ReadFirst(a, [b, c, d, e, f] + rest, cdata, entities);
    assert ([b, c, d, e, f] + rest)[5..] == rest;
  }

  lemma LowSixBits(b: byte)
    ensures LowSix(b) == b % 0x40
  {
  }

  /** The forms of two to six bytes: marked, and the number in groups of bits, upper bits first */
  lemma Layout(c: nat)
    requires 0x80 <= c < 0x8000_0000
    ensures var b := Bytes8(c);
      && (c < 0x800 ==> |b| == 2 && b[0] / 0x20 == 6)
      && (0x800 <= c < 0x1_0000 ==> |b| == 3 && b[0] / 0x10 == 14)
      && (0x1_0000 <= c < 0x20_0000 ==> |b| == 4 && b[0] / 8 == 30)
      && (0x20_0000 <= c < 0x400_0000 ==> |b| == 5 && b[0] / 4 == 62)
      && (0x400_0000 <= c ==> |b| == 6 && b[0] / 2 == 126)
      && forall i :: 0 < i < |b| ==> b[i] / 0x40 == 2
  {
    MoreMarked(c);
    MoreMarked(c / 0x40);
    MoreMarked(c / 0x1000);
    MoreMarked(c / 0x4_0000);
    MoreMarked(c / 0x100_0000);
    hide More;
  }

  lemma MoreMarked(c: nat)
    ensures More(c) / 0x40 == 2
  {
  }

  /** The euro sign */
  lemma Euro()
    ensures Bytes8(0x20AC) == [0xE2, 0x82, 0xAC]
  {
  }

  /** A number is put together again from groups of six bits. */
  lemma SixBits(c: nat)
    ensures c == c / 0x40 * 0x40 + LowSix(More(c))
  {
  }

  lemma MarkBits(c: nat)
    requires 0x800 <= c < 0x1_0000
    ensures c == BOM <==> c / 0x1000 == 0xF && LowSix(More(c / 0x40)) == 0x3B && LowSix(More(c)) == 0x3F
  {
  }

  lemma ReadBack2(c: nat, rest: seq<byte>, cdata: bool, entities: map<seq<byte>, nat>)
    requires 0x80 <= c < 0x800
    ensures Read8(Pos(0, Bytes8(c) + rest, cdata), entities) == Lexeme(c, Pos(0, rest, cdata))
  {
    hide Read8, LowSix, More, Lex;
    SixBits(c);
    MoreIsBig(c);
    Read2(0xC0 + c / 0x40, More(c), rest, cdata, entities);
  }

  lemma MoreIsBig(c: nat)
    ensures More(c) >= 0x80
  {
  }

  lemma ReadBack3(c: nat, rest: seq<byte>, cdata: bool, entities: map<seq<byte>, nat>)
    requires 0x800 <= c < 0x1_0000
    ensures Read8(Pos(0, Bytes8(c) + rest, cdata), entities) ==
      if c == BOM then Read8(Pos(0, rest, cdata), entities) else Lexeme(c, Pos(0, rest, cdata))
  {
    hide Read8, LowSix, More, Lex;
    var c1, c2 := c / 0x40, c / 0x1000;
    assert c2 == c1 / 0x40 && c2 < 0x10;
    SixBits(c);
    SixBits(c1);
    MarkBits(c);
    MoreIsBig(c1);
    Read3(0xE0 + c2, More(c1), More(c), rest, cdata, entities);
  }

  lemma ReadBack4(c: nat, rest: seq<byte>, cdata: bool, entities: map<seq<byte>, nat>)
    requires 0x1_0000 <= c < 0x20_0000
    ensures Read8(Pos(0, Bytes8(c) + rest, cdata), entities) == Lexeme(c, Pos(0, rest, cdata))
  {
    hide Read8, LowSix, More, Lex;
    var c1, c2, c3 := c / 0x40, c / 0x1000, c / 0x4_0000;
    assert c2 == c1 / 0x40 && c3 == c2 / 0x40 && c3 < 8;
    SixBits(c);
    SixBits(c1);
    SixBits(c2);
    MoreIsBig(c2);
    Read4(0xF0 + c3, More(c2), More(c1), More(c), rest, cdata, entities);
  }

  lemma ReadBack5(c: nat, rest: seq<byte>, cdata: bool, entities: map<seq<byte>, nat>)
    requires 0x20_0000 <= c < 0x400_0000
    ensures Read8(Pos(0, Bytes8(c) + rest, cdata), entities) == Lexeme(c, Pos(0, rest, cdata))
  {
    hide Read8, LowSix, More, Lex;
    var c1, c2, c3, c4 := c / 0x40, c / 0x1000, c / 0x4_0000, c / 0x100_0000;
    assert c2 == c1 / 0x40 && c3 == c2 / 0x40 && c4 == c3 / 0x40 && c4 < 4;
    SixBits(c);
    SixBits(c1);
    SixBits(c2);
    SixBits(c3);
    MoreIsBig(c3);
    Read5(0xF8 + c4, More(c3), More(c2), More(c1), More(c), rest, cdata, entities);
  }

  lemma ReadBack6(c: nat, rest: seq<byte>, cdata: bool, entities: map<seq<byte>, nat>)
    requires 0x400_0000 <= c < 0x8000_0000
    ensures Read8(Pos(0, Bytes8(c) + rest, cdata), entities) == Lexeme(c, Pos(0, rest, cdata))
  {
    hide Read8, LowSix, More, Lex;
    var c1, c2, c3, c4, c5 := c / 0x40, c / 0x1000, c / 0x4_0000, c / 0x100_0000, c / 0x4000_0000;
    assert c2 == c1 / 0x40 && c3 == c2 / 0x40 && c4 == c3 / 0x40 && c5 == c4 / 0x40 && c5 < 2;
    SixBits(c);
    SixBits(c1);
    SixBits(c2);
    SixBits(c3);
    SixBits(c4);
    MoreIsBig(c4);
    Read6(0xFC + c5, More(c4), More(c3), More(c2), More(c1), More(c), rest, cdata, entities);
  }

  /** Every code but the byte order mark is read back, and the mark is passed over. */
  lemma ReadBack(c: nat, rest: seq<byte>, cdata: bool, entities: map<seq<byte>, nat>)
    requires 0x80 <= c < 0x8000_0000
    ensures Read8(Pos(0, Bytes8(c) + rest, cdata), entities) ==
      if c == BOM then Read8(Pos(0, rest, cdata), entities) else Lexeme(c, Pos(0, rest, cdata))
  {
    hide Read8, LowSix, More, Lex, Bytes8;
    if c < 0x800 {
      ReadBack2(c, rest, cdata, entities);
    } else if c < 0x1_0000 {
      ReadBack3(c, rest, cdata, entities);
    } else if c < 0x20_0000 {
      ReadBack4(c, rest, cdata, entities);
    } else if c < 0x400_0000 {
      ReadBack5(c, rest, cdata, entities);
    } else {
      ReadBack6(c, rest, cdata, entities);
    }
  }

  function BytesOf(cs: seq<nat>): seq<byte> {
    if cs == [] then [] else Bytes8(cs[0]) + BytesOf(cs[1..])
  }

  function WithoutBOM(cs: seq<nat>): seq<nat> {
    if cs == [] then [] else (if cs[0] == BOM then [] else [cs[0]]) + WithoutBOM(cs[1..])
  }

  lemma {:induction false} BytesOfSnoc(cs: seq<nat>, c: nat)
    ensures BytesOf(cs + [c]) == BytesOf(cs) + Bytes8(c)
  {
    if cs == [] {
      assert [c][1..] == [];
    } else {
      assert (cs + [c])[1..] == cs[1..] + [c];
      BytesOfSnoc(cs[1..], c);
    }
  }

  /** Codes written one after the other in canonical mode and read one after the other until the
      end of the input: the same codes, in any buffering and for any cutting of the bytes. */
  method CodesRoundTrip(cs: seq<nat>, mode: IoMode, entities: map<seq<byte>, nat>) returns (read: seq<int>)
    requires forall i :: 0 <= i < |cs| ==> 0x80 <= cs[i] < 0x8000_0000
    requires mode != Length
    ensures read == WithoutBOM(cs)
  {
    var line := new Socket([]);
    var output := new Output(line, mode);
    for i := 0 to |cs|
      invariant output.Valid() && output.sock == line && output.mode == mode && output.base == []
      invariant fresh(line) && fresh(output) && fresh(output.buf)
      invariant output.sent == BytesOf(cs[..i])
    {
      PrefixNext(cs, i);
      BytesOfSnoc(cs[..i], cs[i]);
      PutUtf8(output, cs[i], true);
    }
    assert cs[..|cs|] == cs;
    var input := Deliver(output);
    read := ReadCodes(input, cs, entities);
  }

  method ReadCodes(input: Input, ghost cs: seq<nat>, entities: map<seq<byte>, nat>) returns (read: seq<int>)
    requires forall i :: 0 <= i < |cs| ==> 0x80 <= cs[i] < 0x8000_0000
    requires input.Valid() && input.ahead == 0 && input.Rest() == BytesOf(cs)
    modifies input, input.buf, input.sock`input
    ensures read == WithoutBOM(cs)
  {
    hide Bytes8, Input.Rest, Input.Valid;
    var lexer := new Lexer(input, entities);
    read := [];
    ghost var todo := cs;
    while true
      invariant |todo| <= |cs| && forall i :: 0 <= i < |todo| ==> 0x80 <= todo[i] < 0x8000_0000
      invariant lexer.input == input && fresh(lexer) && lexer.entities == entities
      invariant lexer.At(Pos(0, BytesOf(todo), false))
      invariant read + WithoutBOM(todo) == WithoutBOM(cs)
      decreases |todo|
    {
      ghost var p := Pos(0, BytesOf(todo), false);
      todo := SkipBOM(todo, entities);
      var c := GetUtf8(lexer, p);
      if c == EOF {
        return;
      }
      read := read + [c];
      todo := todo[1..];
    }
  }

  /** The marks in front of the next code do not show. */
  lemma {:induction false} SkipBOM(cs: seq<nat>, entities: map<seq<byte>, nat>) returns (rest: seq<nat>)
    requires forall i :: 0 <= i < |cs| ==> 0x80 <= cs[i] < 0x8000_0000
    ensures |rest| <= |cs| && forall i :: 0 <= i < |rest| ==> 0x80 <= rest[i] < 0x8000_0000
    ensures WithoutBOM(rest) == WithoutBOM(cs)
    ensures rest == [] ==> Read8(Pos(0, BytesOf(cs), false), entities) == End
    ensures rest != [] ==>
      && rest[0] != BOM
      && Read8(Pos(0, BytesOf(cs), false), entities) == Lexeme(rest[0], Pos(0, BytesOf(rest[1..]), false))
    decreases |cs|
  {
    rest := cs;
    if cs != [] {
      ReadBack(cs[0], BytesOf(cs[1..]), false, entities);
      if cs[0] == BOM {
        assert [] + WithoutBOM(cs[1..]) == WithoutBOM(cs[1..]);
        rest := SkipBOM(cs[1..], entities);
      }
    }
  }
}
