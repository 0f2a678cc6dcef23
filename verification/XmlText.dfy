/** XML text and attribute values (section 2.4 of XML 1.0): soap_string_out writes them,
    soap_string_in and soap_getattrval read them.  The mode is the default one: no wide or
    multibyte strings, no canonical form, no length limits. */
module XmlText {
  import opened Bytes
  import opened Transport
  import opened SoapOutput
  import opened SoapInput
  import opened XmlLexer
  import opened Utf8
  import opened ChunkedTransfer
  import ChunkedCoding
  import LookAside

  // ---------- writing ----------

  const REF_TAB: seq<byte> := [38, 35, 120, 57, 59]            // &#x9;
  const REF_LF: seq<byte> := [38, 35, 120, 65, 59]             // &#xA;
  const REF_CR: seq<byte> := [38, 35, 120, 68, 59]             // &#xD;
  const REF_AMP: seq<byte> := [38, 97, 109, 112, 59]           // &amp;
  const REF_LT: seq<byte> := [38, 108, 116, 59]                // &lt;
  const REF_GT: seq<byte> := [38, 103, 116, 59]                // &gt;
  const REF_QUOT: seq<byte> := [38, 113, 117, 111, 116, 59]    // &quot;

  /** What stands for a byte in element content or, with `attribute`, in a quoted value. */
  function EscapeByte(c: byte, attribute: bool): seq<byte> {
    match c
    case 9 => if attribute then REF_TAB else [9]
    case 10 => REF_LF
    case 13 => REF_CR
    case 38 => REF_AMP
    case 60 => REF_LT
    case 62 => if attribute then [62] else REF_GT
    case 34 => if attribute then REF_QUOT else [34]
    case b => if b >= 0x80 || b < 0x20 then Sent(b, false) else [b]
  }

  function Escape(s: seq<byte>, attribute: bool): seq<byte> {
    if s == [] then [] else EscapeByte(s[0], attribute) + Escape(s[1..], attribute)
  }

  lemma {:induction false} EscapeSnoc(s: seq<byte>, c: byte, attribute: bool)
    ensures Escape(s + [c], attribute) == Escape(s, attribute) + EscapeByte(c, attribute)
  {
    hide EscapeByte;
    if s == [] {
      assert [c][1..] == [];
      assert EscapeByte(c, attribute) + [] == EscapeByte(c, attribute);
    } else {
      assert (s + [c])[1..] == s[1..] + [c];
      EscapeSnoc(s[1..], c, attribute);
    }
  }

  /** The references a byte is sent as */
  lemma EscapedForms(attribute: bool)
    ensures EscapeByte(38, attribute) == Ascii("&amp;") && EscapeByte(60, attribute) == Ascii("&lt;")
    ensures EscapeByte(62, attribute) == Ascii(if attribute then ">" else "&gt;")
    ensures EscapeByte(34, attribute) == Ascii(if attribute then "&quot;" else "\"")
  {
    hide Sent;
  }

  lemma EscapedControls(attribute: bool)
    ensures EscapeByte(10, attribute) == Ascii("&#xA;") && EscapeByte(13, attribute) == Ascii("&#xD;")
    ensures EscapeByte(9, attribute) == Ascii(if attribute then "&#x9;" else "\t")
  {
    hide Sent;
  }

  lemma EscapedNumber(attribute: bool)
    ensures EscapeByte(233, attribute) == Ascii("&#233;")
  {
    assert Decimal(2) == [50] && Decimal(23) == Decimal(2) + [51] && Decimal(233) == Decimal(23) + [51];
    assert Decimal(233) == [50, 51, 51];
    hide Decimal;
  }

  lemma NothingEscaped(attribute: bool)
    ensures Escape([], attribute) == []
  {
  }

  /** Sends the plain bytes before a special one, and then what stands for that one. */
  method SendSpecial(output: Output, plain: seq<byte>, special: seq<byte>)
    requires output.Valid()
    modifies output, output.buf, output.sock`output
    ensures output.Valid() && output.sent == old(output.sent) + plain + special
  {
    output.SendRaw(plain);
    output.SendRaw(special);
  }

  /** soap_string_out, of a string without a zero byte */
  method StringOut(output: Output, text: seq<byte>, attribute: bool)
    requires output.Valid() && 0 !in text
    modifies output, output.buf, output.sock`output
    ensures output.Valid() && output.sent == old(output.sent) + Escape(text, attribute)
  {
    hide Output.Valid, Sent, Escape;
    NothingEscaped(attribute);
    var s, t := 0, 0;    // text[s..t] is plain and not sent yet
    while t < |text|
      invariant 0 <= s <= t <= |text| && output.Valid()
      invariant output.sent + text[s..t] == old(output.sent) + Escape(text[..t], attribute)
    {
      PrefixNext(text, t);
      EscapeSnoc(text[..t], text[t], attribute);
      assert text[s..t + 1] == text[s..t] + [text[t]];
      var c := text[t];
      ConcatAssociative(output.sent, text[s..t], [c]);
      ConcatAssociative(old(output.sent), Escape(text[..t], attribute), EscapeByte(c, attribute));
      t := t + 1;
      match c {
        case 9 =>
          if attribute {
            SendSpecial(output, text[s..t - 1], REF_TAB);
            s := t;
          }
        case 10 =>
          SendSpecial(output, text[s..t - 1], REF_LF);
          s := t;
        case 13 =>
          SendSpecial(output, text[s..t - 1], REF_CR);
          s := t;
        case 38 =>
          SendSpecial(output, text[s..t - 1], REF_AMP);
          s := t;
        case 60 =>
          SendSpecial(output, text[s..t - 1], REF_LT);
          s := t;
        case 62 =>
          if !attribute {
            SendSpecial(output, text[s..t - 1], REF_GT);
            s := t;
          }
        case 34 =>
          if attribute {
            SendSpecial(output, text[s..t - 1], REF_QUOT);
            s := t;
          }
        case _ =>
          if c >= 0x80 || c < 0x20 {
            output.SendRaw(text[s..t - 1]);
            PutUtf8(output, c, false);
            s := t;
          }
      }
      assert s == t ==> output.sent + text[s..t] == output.sent;
    }
    assert text[..|text|] == text;
    output.SendRaw(text[s..]);
  }

  // ---------- reading ----------

  const REF_APOS: seq<byte> := [38, 97, 112, 111, 115, 59]    // &apos;

  /** What is stored for a character that is not markup. */
  function Stored(c: int, flag: bool): seq<byte> {
    if !flag && c == Ref(60) then REF_LT
    else if !flag && c == Ref(62) then REF_GT
    else if !flag && c == Ref(38) then REF_AMP
    else if !flag && c == Ref(34) then REF_QUOT
    else if !flag && c == Ref(39) then REF_APOS
    else [c % 256]
  }

  /** c cannot be pushed back at p, for the end of the input has been met there. */
  predicate Lost(c: int, p: Pos) {
    p.peek == EOF && c != EOF
  }

  /** The text of an element: what is stored, the code that ends it and where the lexer stands.
      n is the number of open inner elements, whose tags belong to the text.  There is no text if
      the input ends where it is unclear. */
  datatype Text = Text(text: seq<byte>, stop: int, next: Pos) | NoText {
    function After(s: seq<byte>): Text {
      if NoText? then NoText else Text(s + text, stop, next)
    }
  }

  /** What a character c in front of p does: it ends the text, or b is stored, m inner elements are
      open, and the lexer goes on from q.  (An inner element is closed by its end tag, or by "/>":
      the character behind a slash is looked at and pushed back.) */
  datatype Step = Stop | Put(b: seq<byte>, m: nat, q: Pos) | NoStep

  function StepOf(c: int, p: Pos, n: nat, flag: bool, entities: map<seq<byte>, nat>): (s: Step)
    ensures s.Put? ==> s.b != [] && s.q.Size() <= p.Size()
  {
    if c == EOF then Stop
    else if c == SOAP_TT then
      if n == 0 then Stop else Put([60, 47], n - 1, p)
    else if c == SOAP_LT then Put([60], n + 1, p)
    else if c == SOAP_GT then Put([62], n, p)
    else if c == SOAP_QT then Put([34], n, p)
    else if c == SOAP_AP then Put([39], n, p)
    else if c == 47 && n > 0 then
      match Lex(p, entities)
      case Lexeme(c1, next) =>
        if Lost(c1, next) then NoStep else Put([47], if c1 == SOAP_GT then n - 1 else n, next.(peek := c1))
      case End => Put([47], n, Pos(EOF, [], false))
      case Unclear => NoStep
    else Put(Stored(c, flag), n, p)
  }

  function TextOf(p: Pos, n: nat, flag: bool, entities: map<seq<byte>, nat>): Text
    decreases p.Size()
  {
    match Read8(p, entities)
    case Unclear => NoText
    case End => Text([], EOF, Pos(EOF, [], false))
    case Lexeme(c, next) =>
      match StepOf(c, next, n, flag, entities)
      case Stop => if Lost(c, next) then NoText else Text([], c, next.(peek := c))
      case Put(b, m, q) => TextOf(q, m, flag, entities).After(b)
      case NoStep => NoText
  }

  lemma StopsAt(c: int, l: Lexeme, n: nat, flag: bool, entities: map<seq<byte>, nat>)
    requires c == EOF || (c == SOAP_TT && n == 0)
    ensures l.Lexeme? && l.c == c ==> StepOf(c, l.next, n, flag, entities) == Stop
  {
  }

  /** The switch of soap_string_in: the byte to store for c, and those to store after it. */
  method CharStep(lexer: Lexer, c: int, ghost p: Pos, n: nat, flag: bool)
    returns (b: byte, t: seq<byte>, m: nat, ghost q: Pos)
    requires lexer.At(p)
    requires c != EOF && !(c == SOAP_TT && n == 0) && !StepOf(c, p, n, flag, lexer.entities).NoStep?
    modifies lexer`cdata, lexer.input, lexer.input.buf, lexer.input.sock`input
    ensures lexer.At(q) && StepOf(c, p, n, flag, lexer.entities) == Put([b] + t, m, q)
  {
    hide Input.Valid, Input.Rest, Lex, Ref, Lexer.At;
    t, m, q := [], n, p;
    if c == SOAP_TT {
      m := n - 1;
      b, t := 60, [47];
    } else if c == SOAP_LT {
      m := n + 1;
      b := 60;
    } else if c == SOAP_GT {
      b := 62;
    } else if c == SOAP_QT {
      b := 34;
    } else if c == SOAP_AP {
      b := 39;
    } else if c == 47 {
      if n > 0 {
        m, q := PeekEnd(lexer, p, n);
      }
      b := 47;
    } else if !flag && c in {Ref(60), Ref(62), Ref(38), Ref(34), Ref(39)} {
      b := 38;
      t := if c == Ref(60) then [108, 116, 59]
           else if c == Ref(62) then [103, 116, 59]
           else if c == Ref(38) then [97, 109, 112, 59]
           else if c == Ref(34) then [113, 117, 111, 116, 59]
           else [97, 112, 111, 115, 59];
    } else {
      b := c % 256;
    }
    assert [b] + [] == [b];
  }

  /** The '/' case of soap_string_in: looks one character ahead for the end of an empty tag. */
  method PeekEnd(lexer: Lexer, ghost p: Pos, n: nat) returns (m: nat, ghost q: Pos)
    requires lexer.At(p) && n > 0 && !StepOf(47, p, n, true, lexer.entities).NoStep?
    modifies lexer`cdata, lexer.input, lexer.input.buf, lexer.input.sock`input
    ensures lexer.At(q) && StepOf(47, p, n, true, lexer.entities) == Put([47], m, q)
  {
    hide Input.Valid, Input.Rest, Lex;
    ghost var l := Lex(p, lexer.entities);
    q := if l.Lexeme? then l.next.(peek := l.c) else Pos(EOF, [], false);
    var c := lexer.Get(p);
    m := if c == SOAP_GT then n - 1 else n;
    lexer.PushBack(c, if l.Lexeme? then l.next else q);
  }

  lemma AfterNothing(t: Text)
    ensures t.After([]) == t
  {
  }

  lemma AfterAll(c: int, q: Pos, written: seq<byte>)
    ensures Text([], c, q).After(written) == Text(written, c, q)
  {
    assert written + [] == written;
  }

  lemma AfterPut(t: Text, written: seq<byte>, b: byte, more: seq<byte>)
    ensures t.After([b] + more).After(written) == t.After(written + [b] + more)
  {
    ConcatAssociative(written, [b], more);
    if t.Text? {
      ConcatAssociative(written, [b] + more, t.text);
    }
  }

  /** One character of the text: it ends it, or b is stored and then t. */
  method NextStep(lexer: Lexer, ghost p: Pos, n: nat, flag: bool)
    returns (end: bool, c: int, b: byte, t: seq<byte>, m: nat, ghost q: Pos)
    requires lexer.At(p) && TextOf(p, n, flag, lexer.entities).Text?
    modifies lexer`cdata, lexer.input, lexer.input.buf, lexer.input.sock`input
    ensures lexer.At(q)
    ensures var whole := TextOf(p, n, flag, lexer.entities);
      if end then whole == Text([], c, q.(peek := c)) && !Lost(c, q)
      else
        && TextOf(q, m, flag, lexer.entities).Text? && q.Size() < p.Size()
        && whole == TextOf(q, m, flag, lexer.entities).After([b] + t)
  {
    hide Input.Valid, Input.Rest, Lex, Read8, StepOf, Lexer.At;
    ghost var l := Read8(p, lexer.entities);
    q := if l.End? then Pos(EOF, [], false) else l.next;
    c := GetUtf8(lexer, p);
    if c == EOF || (c == SOAP_TT && n == 0) {
      StopsAt(c, l, n, flag, lexer.entities);
      return true, c, 0, [], n, q;
    }
    end := false;
    b, t, m, q := CharStep(lexer, c, q, n, flag);
  }

  /** The loop of soap_string_in: puts the text of an element into the look-aside buffer. */
  method CollectText(lexer: Lexer, lab: LookAside.Buffer, flag: bool, ghost p: Pos) returns (s: nat)
    requires lexer.At(p) && lab.Valid() && lab.labidx == 0 && lab.labbuf != lexer.input.buf
    requires TextOf(p, 0, flag, lexer.entities).Text?
    modifies lexer`cdata, lexer.input, lexer.input.buf, lexer.input.sock`input, lab, lab.labbuf
    ensures lab.Filling(s)
    ensures var t := TextOf(p, 0, flag, lexer.entities);
      s < lab.labidx && lab.Written(s) == t.text && lexer.input.ahead == t.stop && lexer.At(t.next)
    ensures lab.labbuf != null && (lab.labbuf == old(lab.labbuf) || fresh(lab.labbuf))
  {
    hide Input.Valid, Input.Rest, TextOf, Lexer.At, CStr, Text.After, LookAside.Buffer.Written,
         LookAside.Buffer.Valid;
    ghost var pos, written, whole := p, [], TextOf(p, 0, flag, lexer.entities);
    s := 0;
    var t: seq<byte> := [];    // the rest of a character that is stored as several
    var n := 0;
    var c: int;
    AfterNothing(whole);
    assert written + t == [];
    while true
      invariant lab.Filling(s)
      invariant (lab.labbuf == old(lab.labbuf) || fresh(lab.labbuf)) && lab.labbuf != lexer.input.buf
      invariant written == lab.Written(s)
      invariant lexer.At(pos) && TextOf(pos, n, flag, lexer.entities).Text?
      invariant whole == TextOf(pos, n, flag, lexer.entities).After(written + t)
      decreases pos.Size(), |t|
    {
      s := lab.Room(s);
      if |t| > 0 {
        assert written + t == written + [t[0]] + t[1..];
        written := written + [t[0]];
        lab.Put(s, t[0]);
        s, t := s + 1, t[1..];
        continue;
      }
      assert written + t == written;
      var end, b;
      ghost var q;
      end, c, b, t, n, q := NextStep(lexer, pos, n, flag);
      if end {
        AfterAll(c, q.(peek := c), written);
        lexer.PushBack(c, q);
        break;
      }
      pos := q;
      AfterPut(TextOf(pos, n, flag, lexer.entities), written, b, t);
      written := written + [b];
      lab.Put(s, b);
      s := s + 1;
    }
  }

  /** soap_string_in: the text of an element, as a zero-terminated string.  A zero in it, from a
      character reference, cuts it off. */
  method StringIn(lexer: Lexer, lab: LookAside.Buffer, flag: bool, ghost p: Pos) returns (r: array<byte>)
    requires lexer.At(p) && lab.Valid() && lab.labbuf != lexer.input.buf
    requires TextOf(p, 0, flag, lexer.entities).Text?
    modifies lexer`cdata, lexer.input, lexer.input.buf, lexer.input.sock`input, lab, lab.labbuf
    ensures var t := TextOf(p, 0, flag, lexer.entities);
      r[..] == CStr(t.text) + [0] && lexer.input.ahead == t.stop && lexer.At(t.next)
    ensures fresh(r) && lab.Valid() && (lab.labbuf == old(lab.labbuf) || fresh(lab.labbuf))
  {
    hide Input.Valid, Input.Rest, TextOf, CStr, LookAside.Buffer.Written;
    lab.labidx := 0;
    var s := CollectText(lexer, lab, flag, p);
    r := lab.Finish(s);
  }

  // ---------- attribute values ----------

  /** The value of an attribute up to its delimiter d: what is stored, the code that ended it
      and where the lexer stands.  The delimiter is SOAP_QT, SOAP_AP, or a blank for a value
      without quotes.  `Ended` is a value that the end of the input cuts off. */
  datatype Value = Value(text: seq<byte>, stop: int, next: Pos) | Ended(text: seq<byte>) | NoValue {
    function After(s: seq<byte>): Value {
      match this
      case Value(text, stop, next) => Value(s + text, stop, next)
      case Ended(text) => Ended(s + text)
      case NoValue => NoValue
    }
  }

  predicate IsDelimiter(d: int) {
    d in {SOAP_QT, SOAP_AP, 32}
  }

  predicate Ends(c: int, d: int) {
    if d == 32 then c in {SOAP_GT, 9, 10, 13, 32, 47} else c == d
  }

  /** The byte stored for a character of a value. */
  function StoredValue(c: int): byte {
    if c == SOAP_LT || c == SOAP_TT then 60
    else if c == SOAP_GT then 62
    else if c == SOAP_QT then 34
    else if c == SOAP_AP then 39
    else c % 256
  }

  function ValueOf(p: Pos, d: int, entities: map<seq<byte>, nat>): Value
    decreases p.Size(), p.peek == SOAP_TT
  {
    match Lex(p, entities)
    case Unclear => NoValue
    case End => Ended([])
    case Lexeme(c, next) =>
      if c == EOF then Ended([])
      else if (d == 32 || c == SOAP_TT) && Lost(c, next) then NoValue
      else if Ends(c, d) then Value([], c, if d == 32 then next.(peek := c) else next)
      else ValueOf(if c == SOAP_TT then next.(peek := 47) else next, d, entities).After([StoredValue(c)])
  }

  lemma ValueStep(p: Pos, d: int, entities: map<seq<byte>, nat>, before: seq<byte>)
    requires IsDelimiter(d) && !ValueOf(p, d, entities).NoValue?
    ensures var l := Lex(p, entities);
      && !l.Unclear?
      && var v := ValueOf(p, d, entities).After(before);
         if l.End? || l.c == EOF then v == Ended(before)
         else if (d == 32 || l.c == SOAP_TT) && Lost(l.c, l.next) then false
         else if Ends(l.c, d) then v == Value(before, l.c, if d == 32 then l.next.(peek := l.c) else l.next)
         else
           var q := if l.c == SOAP_TT then l.next.(peek := 47) else l.next;
           && !ValueOf(q, d, entities).NoValue?
           && v == ValueOf(q, d, entities).After(before + [StoredValue(l.c)])
  {
    hide Lex, StoredValue, Ends;
    var l := Lex(p, entities);
    assert before + [] == before;
    if l.Lexeme? && l.c != EOF && !Ends(l.c, d) {
      var q := if l.c == SOAP_TT then l.next.(peek := 47) else l.next;
      ConcatAssociative(before, [StoredValue(l.c)], ValueOf(q, d, entities).text);
    }
  }

  datatype Outcome = Fine | AtEnd | Full

  /** soap_getattrval: stores at most n - 1 characters of the value and a zero from a place in a
      buffer on; otherwise fills the n bytes there and reports that there is more. */
  method GetAttrVal(lexer: Lexer, buf: array<byte>, at: nat, n: nat, d: int, ghost p: Pos)
    returns (r: Outcome, ghost q: Pos)
    requires lexer.At(p) && IsDelimiter(d) && buf != lexer.input.buf && at + n <= buf.Length
    requires !ValueOf(p, d, lexer.entities).NoValue?
    modifies lexer`cdata, lexer.input, lexer.input.buf, lexer.input.sock`input, buf
    ensures buf[..at] == old(buf[..at])
    ensures var v := ValueOf(p, d, lexer.entities);
      match r
      case Fine => v.Value? && |v.text| < n && buf[at..at + |v.text| + 1] == v.text + [0] && lexer.At(v.next)
      case AtEnd => v.Ended? && |v.text| < n
      case Full => |v.text| >= n && lexer.At(q) && !ValueOf(q, d, lexer.entities).NoValue?
                   && v == ValueOf(q, d, lexer.entities).After(buf[at..at + n])
  {
    hide Input.Valid, Input.Rest, Lex, ValueOf;
    ghost var v := ValueOf(p, d, lexer.entities);
    q := p;
    var i := 0;
    assert v == v.After(buf[at..at]);
    while i < n
      invariant 0 <= i <= n && lexer.At(q) && buf[..at] == old(buf[..at])
      invariant !ValueOf(q, d, lexer.entities).NoValue?
      invariant v == ValueOf(q, d, lexer.entities).After(buf[at..at + i])
    {
      ghost var before := buf[at..at + i];
      ValueStep(q, d, lexer.entities, before);
      ghost var l := Lex(q, lexer.entities);
      var c := lexer.Get(q);
      if c == EOF {
        return AtEnd, q;
      }
      q := l.next;
      if Ends(c, d) {
        if d == 32 {
          lexer.PushBack(c, q);
          q := q.(peek := c);
        }
        buf[at + i] := 0;
        assert buf[at..at + i + 1] == before + [0];
        return Fine, q;
      }
      if c == SOAP_TT {
        lexer.PushBack(47, q);
        q := q.(peek := 47);
      }
      buf[at + i] := StoredValue(c);
      assert buf[at..at + i + 1] == before + [StoredValue(c)];
      i := i + 1;
    }
    r := Full;
  }

  /** The string in front of a zero. */
  lemma {:induction false} StringBefore(a: seq<byte>, text: seq<byte>)
    requires text + [0] <= a
    ensures CStr(a) == CStr(text) && CStr(text) + [0] <= a
    decreases text
  {
    if text == [] || text[0] == 0 {
    } else {
      assert (text + [0])[1..] == text[1..] + [0];
      StringBefore(a[1..], text[1..]);
      assert a == [a[0]] + a[1..];
    }
  }

  /** A pass of the loop that reads a value into the look-aside buffer. */
  method CollectPart(lexer: Lexer, lab: LookAside.Buffer, d: int, ghost v: Value, ghost p: Pos)
    returns (r: Outcome, ghost q: Pos)
    requires lexer.At(p) && IsDelimiter(d) && !ValueOf(p, d, lexer.entities).NoValue?
    requires lab.Valid() && lab.labbuf != null && lab.labbuf != lexer.input.buf && lab.labidx < lab.lablen
    requires v == ValueOf(p, d, lexer.entities).After(lab.Contents())
    modifies lexer`cdata, lexer.input, lexer.input.buf, lexer.input.sock`input, lab, lab.labbuf
    ensures lab.Valid() && lab.labbuf != null && (lab.labbuf == old(lab.labbuf) || fresh(lab.labbuf))
    ensures lab.labidx < lab.lablen
    ensures match r
            case Fine => v.Value? && lexer.At(v.next) && v.text + [0] <= lab.labbuf[..]
            case AtEnd => v.Ended?
            case Full => lexer.At(q) && !ValueOf(q, d, lexer.entities).NoValue?
                         && v == ValueOf(q, d, lexer.entities).After(lab.Contents())
                         && old(lab.labidx) < lab.labidx <= |v.text|
  {
    hide Input.Valid, Input.Rest, ValueOf, Lexer.At, LookAside.Doubled;
    ghost var before, u := lab.Contents(), ValueOf(p, d, lexer.entities);
    r, q := GetAttrVal(lexer, lab.labbuf, lab.labidx, lab.lablen - lab.labidx, d, p);
    if r == Full {
      AfterAfterValue(ValueOf(q, d, lexer.entities), before, lab.labbuf[lab.labidx..lab.lablen]);
      lab.labidx := lab.lablen;
      assert lab.Contents() == before + lab.labbuf[|before|..lab.lablen];
      assert lab.Contents() + [] == lab.Contents();
      lab.Append([]);
    } else if r == Fine {
      PrefixOf(lab.labbuf[..], before, u.text + [0]);
    }
  }

  /** A value that does not fit the first buffer is read on into the look-aside buffer. */
  method CollectValue(lexer: Lexer, lab: LookAside.Buffer, d: int, ghost v: Value, ghost p: Pos) returns (ok: bool)
    requires lexer.At(p) && IsDelimiter(d) && !ValueOf(p, d, lexer.entities).NoValue?
    requires lab.Valid() && lab.labbuf != null && lab.labbuf != lexer.input.buf && lab.labidx < lab.lablen
    requires v == ValueOf(p, d, lexer.entities).After(lab.Contents())
    modifies lexer`cdata, lexer.input, lexer.input.buf, lexer.input.sock`input, lab, lab.labbuf
    ensures lab.Valid() && lab.labbuf != null && (lab.labbuf == old(lab.labbuf) || fresh(lab.labbuf))
    ensures ok <==> v.Value?
    ensures ok ==> lexer.At(v.next) && v.text + [0] <= lab.labbuf[..]
  {
    hide Input.Valid, Input.Rest, ValueOf, Lexer.At, LookAside.Buffer.Contents;
    ghost var q := p;
    while true
      invariant lab.Valid() && lab.labbuf != null && (lab.labbuf == old(lab.labbuf) || fresh(lab.labbuf))
      invariant lab.labbuf != lexer.input.buf && lab.labidx < lab.lablen
      invariant lexer.At(q) && !ValueOf(q, d, lexer.entities).NoValue?
      invariant v == ValueOf(q, d, lexer.entities).After(lab.Contents())
      decreases if v.NoValue? then 0 else |v.text| - lab.labidx
    {
      var r;
      r, q := CollectPart(lexer, lab, d, v, q);
      if r != Full {
        return r == Fine;
      }
    }
  }

  lemma AfterAfterValue(v: Value, a: seq<byte>, b: seq<byte>)
    ensures v.After(b).After(a) == v.After(a + b)
  {
    if !v.NoValue? {
      ConcatAssociative(a, b, v.text);
    }
  }

  lemma PrefixOf(s: seq<byte>, a: seq<byte>, b: seq<byte>)
    requires |a| + |b| <= |s| && s[..|a|] == a && s[|a|..|a| + |b|] == b
    ensures a + b <= s
  {
    assert s == s[..|a|] + s[|a|..|a| + |b|] + s[|a| + |b|..];
  }

  /** The part of soap_peek_element that reads an attribute's value: into its buffer if the value
      fits, and into a new one, by way of the look-aside buffer, if it does not.  The call fails if
      the input ends in the value. */
  method AttributeValue(lexer: Lexer, lab: LookAside.Buffer, value: array<byte>, d: int, ghost p: Pos)
    returns (ok: bool, r: array<byte>)
    requires lexer.At(p) && IsDelimiter(d) && !ValueOf(p, d, lexer.entities).NoValue?
    requires lab.Valid() && lab.labbuf != lexer.input.buf && value != lexer.input.buf && value != lab.labbuf
    modifies lexer`cdata, lexer.input, lexer.input.buf, lexer.input.sock`input, lab, lab.labbuf, value
    ensures var v := ValueOf(p, d, lexer.entities);
      && (ok <==> v.Value?)
      && (ok ==> lexer.At(v.next) && CStr(v.text) + [0] <= r[..])
      && (ok && |v.text| < value.Length ==> r == value && v.text + [0] <= r[..])
      && (ok && |v.text| >= value.Length ==> fresh(r) && r.Length >= LookAside.SOAP_LABLEN)
    ensures lab.Valid()
  {
    hide Input.Valid, Input.Rest, ValueOf, CStr, Lexer.At, LookAside.Doubled;
    ghost var v := ValueOf(p, d, lexer.entities);
    var got;
    ghost var q;
    r := value;
    got, q := GetAttrVal(lexer, value, 0, value.Length, d, p);
    if got != Full {
      ok := got == Fine;
      if ok {
        StringBefore(value[..], v.text);
      }
      return;
    }
    lab.Store(value[..]);
    ok := CollectValue(lexer, lab, d, v, q);
    if ok {
      StringBefore(lab.labbuf[..], v.text);
      r := NewValue(lab, v.text);
    }
  }

  /** The new buffer of a value, which is in the look-aside buffer. */
  method NewValue(lab: LookAside.Buffer, ghost text: seq<byte>) returns (r: array<byte>)
    requires lab.Valid() && lab.labbuf != null && text + [0] <= lab.labbuf[..] && lab.lablen >= LookAside.SOAP_LABLEN
    ensures fresh(r) && r.Length >= LookAside.SOAP_LABLEN && CStr(text) + [0] <= r[..]
  {
    hide CStr;
    StringBefore(lab.labbuf[..], text);
    var s := CStr(lab.labbuf[..]);
    var size := lab.lablen;
    if lab.labidx == 0 {
      size := |s| + 1;
      if size < LookAside.SOAP_LABLEN {
        size := LookAside.SOAP_LABLEN;
      }
    }
    r := new byte[size];
    CopyInto(r, 0, s + [0]);
  }

  // ---------- what is written is read back ----------

  /** The code the lexer reports for the escaped form of a byte. */
  function CodeOf(c: byte, attribute: bool): int {
    match c
    case 9 => if attribute then Ref(9) else 9
    case 62 => if attribute then SOAP_GT else Ref(62)
    case 34 => if attribute then Ref(34) else SOAP_QT
    case 39 => SOAP_AP
    case b => if b in {38, 60} || b >= 0x80 || b < 0x20 then Ref(b) else b
  }

  lemma {:induction false} TakeNameOf(tmp: seq<byte>, name: seq<byte>, rest: seq<byte>)
    requires 59 !in name && |tmp| + |name| < 7
    ensures TakeName(tmp, name + [59] + rest) == Name(tmp + name, rest, false)
    decreases name
  {
    var s := name + [59] + rest;
    if name == [] {
      assert s[0] == 59 && s[1..] == rest && tmp + name == tmp;
    } else {
      assert s[0] == name[0] && s[1..] == name[1..] + [59] + rest;
      assert tmp + [name[0]] + name[1..] == tmp + name;
      TakeNameOf(tmp + [name[0]], name[1..], rest);
    }
  }

  /** A reference &name; in front of the rest. */
  lemma LexRef(name: seq<byte>, rest: seq<byte>, entities: map<seq<byte>, nat>)
    requires 59 !in name && 0 !in name && |name| < 7
    ensures Lex(Plain([38] + name + [59] + rest), entities) == Lexeme(Ref(CharValue(name, entities)), Plain(rest))
  {
    hide CharValue, TakeName, CStr;
    var s := [38] + name + [59] + rest;
    WholeCStr(name);
    TakeNameOf([], name, rest);
    assert s[1..] == name + [59] + rest;
    assert [] + name == name;
  }

  lemma {:induction false} NumberOfDecimal(n: nat, rest: seq<byte>, v: nat)
    requires v == 0
    ensures Number(Decimal(n) + rest, 10, v) == Number(rest, 10, n)
  {
    if n < 10 {
      assert (Decimal(n) + rest)[1..] == rest;
    } else {
      NumberOfDecimal(n / 10, [48 + n % 10] + rest, 0);
      assert Decimal(n) + rest == Decimal(n / 10) + ([48 + n % 10] + rest);
      assert ([48 + n % 10] + rest)[1..] == rest;
    }
  }

  lemma {:induction false} DecimalDigits(n: nat, i: nat)
    requires i < |Decimal(n)|
    ensures 48 <= Decimal(n)[i] <= 57
  {
    if n >= 10 && i < |Decimal(n / 10)| {
      DecimalDigits(n / 10, i);
    }
  }

  lemma {:induction false} DecimalLength(n: nat, k: nat, bound: nat)
    requires n < bound && bound == Pow10(k) && k > 0
    ensures |Decimal(n)| <= k && (k > 1 && n >= Pow10(k - 1) ==> |Decimal(n)| == k)
  {
    if n >= 10 {
      assert k > 1;
      DecimalLength(n / 10, k - 1, bound / 10);
    }
  }

  function Pow10(k: nat): nat {
    if k == 0 then 1 else 10 * Pow10(k - 1)
  }

  /** No semicolon and no zero are among the digits. */
  lemma DecimalName(n: nat)
    ensures 59 !in Decimal(n) && 0 !in Decimal(n) && forall i :: 0 <= i < |Decimal(n)| ==> 48 <= Decimal(n)[i] <= 57
  {
    forall i | 0 <= i < |Decimal(n)| ensures 48 <= Decimal(n)[i] <= 57 {
      DecimalDigits(n, i);
    }
  }

  lemma DecimalValue(n: nat, entities: map<seq<byte>, nat>)
    ensures CharValue([35] + Decimal(n), entities) == n
  {
    DecimalName(n);
    NumberOfDecimal(n, [], 0);
    assert Decimal(n) + [] == Decimal(n);
    assert ([35] + Decimal(n))[1..] == Decimal(n);
  }

  /** A decimal reference of at most five digits */
  lemma LexNumber(n: nat, rest: seq<byte>, entities: map<seq<byte>, nat>)
    requires n < 100000
    ensures Lex(Plain([38, 35] + Decimal(n) + [59] + rest), entities) == Lexeme(Ref(n), Plain(rest))
  {
    hide Lex, CharValue, Decimal;
    assert Pow10(5) == 100000;
    DecimalLength(n, 5, 100000);
    DecimalName(n);
    DecimalValue(n, entities);
    var name := [35] + Decimal(n);
    assert [38, 35] + Decimal(n) + [59] + rest == [38] + name + [59] + rest;
    LexRef(name, rest, entities);
  }

  /** Of a name of seven characters the semicolon is not read. */
  lemma {:induction false} TakeSeven(tmp: seq<byte>, name: seq<byte>, rest: seq<byte>)
    requires 59 !in name && |tmp| + |name| == 7
    ensures TakeName(tmp, name + rest) == Name(tmp + name, rest, false)
    decreases name
  {
    var s := name + rest;
    if name == [] {
      assert tmp + name == tmp && s == rest;
    } else {
      assert s[0] == name[0] && s[1..] == name[1..] + rest;
      assert tmp + [name[0]] + name[1..] == tmp + name;
      TakeSeven(tmp + [name[0]], name[1..], rest);
    }
  }

  lemma LexSeven(name: seq<byte>, rest: seq<byte>, entities: map<seq<byte>, nat>)
    requires 59 !in name && 0 !in name && |name| == 7
    ensures Lex(Plain([38] + name + rest), entities) == Lexeme(Ref(CharValue(name, entities)), Plain(rest))
  {
    hide CharValue, TakeName, CStr;
    WholeCStr(name);
    TakeSeven([], name, rest);
    assert ([38] + name + rest)[1..] == name + rest;
    assert [] + name == name;
  }

  /** A longer one: six digits are read, and the others and the semicolon are left. */
  lemma LexLong(n: nat, rest: seq<byte>, entities: map<seq<byte>, nat>)
    requires n >= 100000
    ensures |Decimal(n)| >= 6
    ensures var l := Lex(Plain([38, 35] + Decimal(n) + [59] + rest), entities);
      && l.Lexeme? && l.next == Plain(Decimal(n)[6..] + [59] + rest)
      && (n < 1000000 ==> l == Lexeme(Ref(n), Plain([59] + rest)))
  {
    hide Lex, CharValue, Decimal;
    var d := Decimal(n);
    SixDigits(n);
    DecimalName(n);
    DecimalValue(n, entities);
    var name := [35] + d[..6];
    assert d == d[..6] + d[6..];
    assert [38, 35] + d + [59] + rest == [38] + name + (d[6..] + [59] + rest);
    LexSeven(name, d[6..] + [59] + rest, entities);
    assert |d| == 6 ==> d[..6] == d && d[6..] + [59] + rest == [59] + rest;
  }

  lemma {:induction false} SixDigits(n: nat)
    requires n >= 100000
    ensures |Decimal(n)| >= 6 && (n < 1000000 ==> |Decimal(n)| == 6)
  {
    if n < 1000000 {
      assert Pow10(6) == 1000000 && Pow10(5) == 100000;
      DecimalLength(n, 6, 1000000);
    } else {
      SixDigits(n / 10);
    }
  }

  /** So a code that is sent as a reference is read back if and only if it is below 100000. */
  lemma ReferenceReadBack(n: nat, rest: seq<byte>, entities: map<seq<byte>, nat>)
    requires n < 0x20 || n >= 0x80
    ensures Lex(Plain(Sent(n, false) + rest), entities) == Lexeme(Ref(n), Plain(rest)) <==> n < 100000
  {
    hide Lex, Decimal;
    if n < 100000 {
      LexNumber(n, rest, entities);
    } else {
      LexLong(n, rest, entities);
      assert |Decimal(n)[6..] + [59] + rest| > |rest|;
    }
  }

  lemma {:induction false} NumberOfHex(ds: seq<byte>, v: nat)
    requires forall c :: c in ds ==> ChunkedCoding.IsHex(c)
    ensures Number(ds, 16, v) == Shifted(v, |ds|) + ChunkedCoding.HexValue(ds)
    decreases |ds|
  {
    if ds != [] {
      var n := |ds| - 1;
      NumberOfHex(ds[..n], v);
      NumberSnoc(ds[..n], ds[n], v);
      assert ds[..n] + [ds[n]] == ds;
    }
  }

  /** v * 16^k */
  function Shifted(v: nat, k: nat): nat {
    if k == 0 then v else 16 * Shifted(v, k - 1)
  }

  lemma {:induction false} NumberSnoc(ds: seq<byte>, c: byte, v: nat)
    requires ChunkedCoding.IsHex(c) && forall d :: d in ds ==> ChunkedCoding.IsHex(d)
    ensures Number(ds + [c], 16, v) == 16 * Number(ds, 16, v) + ChunkedCoding.DigitValue(c)
    decreases ds
  {
    var s := ds + [c];
    if ds == [] {
      assert s[0] == c && s[1..] == [];
    } else {
      assert s[0] == ds[0] && s[1..] == ds[1..] + [c];
      NumberSnoc(ds[1..], c, 16 * v + ChunkedCoding.DigitValue(ds[0]));
    }
  }

  lemma {:induction false} NoShift(k: nat)
    ensures Shifted(0, k) == 0
  {
    if k > 0 {
      NoShift(k - 1);
    }
  }

  lemma HexReference(x: byte, n: nat, ds: seq<byte>, entities: map<seq<byte>, nat>)
    requires x in {120, 88} && ChunkedCoding.AnyCase(ChunkedCoding.Hex(n), ds)
    ensures 59 !in ds && 0 !in ds && ds != []
    ensures CharValue([35, x] + ds, entities) == n
  {
    hide ChunkedCoding.Hex;
    ChunkedCoding.AnyCaseValue(ChunkedCoding.Hex(n), ds);
    ChunkedCoding.HexInverse(n);
    NumberOfHex(ds, 0);
    NoShift(|ds|);
    assert ds[0] in ds;
    var name := [35, x] + ds;
    assert name[2..] == ds && name != NAME_LT;
    assert |ds| > 1 ==> ds[1] in ds;
  }

  /** A hexadecimal reference of at most four digits, in either case; of one with five digits the
      semicolon is left. */
  lemma LexHexNumber(x: byte, n: nat, ds: seq<byte>, rest: seq<byte>, entities: map<seq<byte>, nat>)
    requires x in {120, 88} && ChunkedCoding.AnyCase(ChunkedCoding.Hex(n), ds) && n < 0x10_0000
    ensures Lex(Plain([38] + ([35, x] + ds) + [59] + rest), entities)
            == Lexeme(Ref(n), Plain(if n < 0x1_0000 then rest else [59] + rest))
  {
    hide Lex, CharValue, ChunkedCoding.Hex;
    HexReference(x, n, ds, entities);
    assert ChunkedCoding.Pow16(4) == 0x1_0000 && ChunkedCoding.Pow16(5) == 0x10_0000;
    var name := [35, x] + ds;
    if n < 0x1_0000 {
      ChunkedCoding.HexLength(n, 4, 0x1_0000);
      LexRef(name, rest, entities);
    } else {
      FiveDigits(n);
      assert [38] + name + [59] + rest == [38] + name + ([59] + rest);
      LexSeven(name, [59] + rest, entities);
    }
  }

  lemma FiveDigits(n: nat)
    requires 0x1_0000 <= n < 0x10_0000
    ensures |ChunkedCoding.Hex(n)| == 5
  {
    hide ChunkedCoding.Hex;
    var a, b, c := n / 0x10, n / 0x100, n / 0x1000;
    assert b == a / 0x10 && c == b / 0x10 && c / 0x10 < 0x10;
    OneMoreDigit(c / 0x10);
    OneMoreDigit(c);
    OneMoreDigit(b);
    OneMoreDigit(a);
    OneMoreDigit(n);
  }

  lemma OneMoreDigit(n: nat)
    ensures |ChunkedCoding.Hex(n)| == if n < 16 then 1 else |ChunkedCoding.Hex(n / 16)| + 1
  {
  }

  lemma HexValue(d: byte, v: nat, entities: map<seq<byte>, nat>)
    requires (d, v) in {(57, 9), (65, 10), (68, 13)}
    ensures CharValue([35, 120, d], entities) == v
  {
    assert [35, 120, d][2..] == [d] && [d][1..] == [];
    assert Number([d], 16, 0) == v;
  }

  lemma LexHex(d: byte, v: nat, rest: seq<byte>, entities: map<seq<byte>, nat>)
    requires (d, v) in {(57, 9), (65, 10), (68, 13)}
    ensures Lex(Plain([38, 35, 120, d, 59] + rest), entities) == Lexeme(Ref(v), Plain(rest))
  {
    hide Lex, CharValue;
    LexRef([35, 120, d], rest, entities);
    assert [38, 35, 120, d, 59] + rest == [38] + [35, 120, d] + [59] + rest;
    HexValue(d, v, entities);
  }

  lemma LexNamed(name: seq<byte>, v: nat, rest: seq<byte>, entities: map<seq<byte>, nat>)
    requires (name, v) in {(NAME_LT, 60), (NAME_GT, 62), (NAME_AMP, 38), (NAME_QUOT, 34)}
    ensures Lex(Plain([38] + name + [59] + rest), entities) == Lexeme(Ref(v), Plain(rest))
  {
    LexRef(name, rest, entities);
  }

  /** The escaped form of a byte is one character to the lexer. */
  lemma LexEscaped(c: byte, attribute: bool, rest: seq<byte>, entities: map<seq<byte>, nat>)
    requires c != 0
    ensures Lex(Plain(EscapeByte(c, attribute) + rest), entities) == Lexeme(CodeOf(c, attribute), Plain(rest))
  {
    match c
    case 9 => if attribute { LexHex(57, 9, rest, entities); } else { assert ([9] + rest)[1..] == rest; }
    case 10 => LexHex(65, 10, rest, entities);
    case 13 => LexHex(68, 13, rest, entities);
    case 38 =>
      assert REF_AMP == [38] + NAME_AMP + [59];
      LexNamed(NAME_AMP, 38, rest, entities);
    case 60 =>
      assert REF_LT == [38] + NAME_LT + [59];
      LexNamed(NAME_LT, 60, rest, entities);
    case 62 =>
      assert REF_GT == [38] + NAME_GT + [59];
      if attribute { assert ([62] + rest)[1..] == rest; } else { LexNamed(NAME_GT, 62, rest, entities); }
    case 34 =>
      assert REF_QUOT == [38] + NAME_QUOT + [59];
      if attribute { LexNamed(NAME_QUOT, 34, rest, entities); } else { assert ([34] + rest)[1..] == rest; }
    case b =>
      if b >= 0x80 || b < 0x20 {
        LexNumber(b, rest, entities);
      } else {
        assert ([b] + rest)[1..] == rest;
      }
  }

  /** Escaped text in front of an end tag is read back as it was. */
  lemma {:induction false} TextReadBack(s: seq<byte>, rest: seq<byte>, entities: map<seq<byte>, nat>)
    requires 0 !in s
    ensures TextOf(Plain(Escape(s, false) + ([60, 47] + rest)), 0, true, entities)
            == Text(s, SOAP_TT, Pos(SOAP_TT, rest, false))
    decreases s
  {
    var tail := [60, 47] + rest;
    if s == [] {
      assert [] + tail == tail && tail[2..] == rest;
    } else {
      var more := Escape(s[1..], false) + tail;
      ConcatAssociative(EscapeByte(s[0], false), Escape(s[1..], false), tail);
      LexEscaped(s[0], false, more, entities);
      TextReadBack(s[1..], rest, entities);
      assert [s[0]] + s[1..] == s;
      TextReadOne(s[0], EscapeByte(s[0], false) + more, more, entities);
    }
  }

  lemma TextReadOne(c: byte, s: seq<byte>, r: seq<byte>, entities: map<seq<byte>, nat>)
    requires c != 0 && Lex(Plain(s), entities) == Lexeme(CodeOf(c, false), Plain(r))
    ensures TextOf(Plain(s), 0, true, entities) == TextOf(Plain(r), 0, true, entities).After([c])
  {
    hide Lex, CodeOf, StepOf;
    StoresByte(c, r, entities);
    assert Read8(Plain(s), entities) == Lexeme(CodeOf(c, false), Plain(r));
  }

  lemma StoresByte(c: byte, r: seq<byte>, entities: map<seq<byte>, nat>)
    requires c != 0
    ensures CodeOf(c, false) < 0x80 && StepOf(CodeOf(c, false), Plain(r), 0, true, entities) == Put([c], 0, Plain(r))
  {
  }

  /** The reference &#0; puts a zero into a text, and what is returned of it is empty. */
  lemma ZeroReference(rest: seq<byte>, flag: bool, entities: map<seq<byte>, nat>)
    ensures var t := TextOf(Plain([38, 35, 48, 59] + rest), 0, flag, entities);
      t == TextOf(Plain(rest), 0, flag, entities).After([0]) && (t.Text? ==> CStr(t.text) == [])
  {
    hide Lex, Sequence;
    LexNumber(0, rest, entities);
    assert [38, 35] + Decimal(0) + [59] + rest == [38, 35, 48, 59] + rest;
    assert StepOf(Ref(0), Plain(rest), 0, flag, entities) == Put([0], 0, Plain(rest));
  }

  /** The same of U+0100, for the low byte of a code is stored. */
  lemma LowByteZero(rest: seq<byte>, flag: bool, entities: map<seq<byte>, nat>)
    ensures TextOf(Plain([0xC4, 0x80] + rest), 0, flag, entities) == TextOf(Plain(rest), 0, flag, entities).After([0])
  {
    hide Lex, Sequence;
    Read2(0xC4, 0x80, rest, false, entities);
    hide Read8;
    assert 0xC4 % 0x20 * 0x40 + LowSix(0x80) == 0x100;
    assert StepOf(0x100, Plain(rest), 0, flag, entities) == Put([0], 0, Plain(rest));
  }

  /** The codes a text is made of. */
  ghost function Codes(p: Pos, n: nat, flag: bool, entities: map<seq<byte>, nat>): seq<int>
    decreases p.Size()
  {
    match Read8(p, entities)
    case Lexeme(c, next) =>
      (match StepOf(c, next, n, flag, entities)
       case Put(_, m, q) => [c] + Codes(q, m, flag, entities)
       case _ => [])
    case _ => []
  }

  lemma ZeroByte(c: int, p: Pos, n: nat, flag: bool, entities: map<seq<byte>, nat>)
    ensures var s := StepOf(c, p, n, flag, entities); s.Put? ==> (0 in s.b <==> c % 256 == 0)
  {
    hide Lex;
  }

  /** A text has a zero byte, and is cut off there, exactly if it has a code that is a multiple of 256. */
  lemma {:induction false} ZeroStored(p: Pos, n: nat, flag: bool, entities: map<seq<byte>, nat>)
    requires TextOf(p, n, flag, entities).Text?
    ensures 0 in TextOf(p, n, flag, entities).text <==>
      exists i :: 0 <= i < |Codes(p, n, flag, entities)| && Codes(p, n, flag, entities)[i] % 256 == 0
    decreases p.Size()
  {
    hide Read8, StepOf;
    var l := Read8(p, entities);
    if l.Lexeme? {
      var s := StepOf(l.c, l.next, n, flag, entities);
      if s.Put? {
        ZeroByte(l.c, l.next, n, flag, entities);
        ZeroStored(s.q, s.m, flag, entities);
        var more, all := Codes(s.q, s.m, flag, entities), Codes(p, n, flag, entities);
        assert all == [l.c] + more && all[0] == l.c;
        assert forall i :: 0 <= i < |more| ==> all[i + 1] == more[i];
        if i :| 0 <= i < |all| && all[i] % 256 == 0 {
          assert i > 0 ==> more[i - 1] == all[i];
        }
      }
    }
  }

  // ---------- comments, instructions and CDATA sections in a text ----------

  /** A text depends on the first character and on what follows it. */
  lemma TextSame(p: Pos, q: Pos, n: nat, flag: bool, entities: map<seq<byte>, nat>)
    requires p.peek < 256 && q.peek < 256 && Lex(p, entities) == Lex(q, entities)
    ensures TextOf(p, n, flag, entities) == TextOf(q, n, flag, entities)
  {
    hide Lex, Sequence, StepOf;
  }

  lemma CommentInText(a: seq<byte>, rest: seq<byte>, n: nat, flag: bool, entities: map<seq<byte>, nat>)
    requires IsComment(a)
    ensures TextOf(Plain(COMMENT + (a + (COMMENT_END + rest))), n, flag, entities)
            == TextOf(Plain(rest), n, flag, entities)
  {
    CommentSkipped(a, rest, entities);
    TextSame(Plain(COMMENT + (a + (COMMENT_END + rest))), Plain(rest), n, flag, entities);
  }

  lemma InstructionInText(a: seq<byte>, rest: seq<byte>, n: nat, flag: bool, entities: map<seq<byte>, nat>)
    requires 63 !in a && !(Ascii("xml") < a && a[3] <= 32)
    ensures TextOf(Plain(INSTRUCTION + (a + (INSTRUCTION_END + rest))), n, flag, entities)
            == TextOf(Plain(rest), n, flag, entities)
  {
    InstructionSkipped(a, rest, entities);
    TextSame(Plain(INSTRUCTION + (a + (INSTRUCTION_END + rest))), Plain(rest), n, flag, entities);
  }

  /** What may stand in a CDATA section (section 2.7 of XML 1.0), of ASCII characters */
  predicate IsSection(s: seq<byte>) {
    && (forall i :: 0 <= i < |s| ==> s[i] < 0x80)
    && (forall i :: 2 <= i < |s| && s[i] == 62 ==> s[i - 1] != 93 || s[i - 2] != 93)
  }

  lemma AfterTwice(t: Text, a: seq<byte>, b: seq<byte>)
    ensures t.After(b).After(a) == t.After(a + b)
  {
    if t.Text? {
      ConcatAssociative(a, b, t.text);
    }
  }

  // ---------- a slash in an inner element ----------

  // In an inner element the character behind a slash is looked at and pushed back.  A zero byte
  // cannot be pushed back; and if the lexer itself has pushed back the second one of two brackets,
  // this one is forgotten when the first one is pushed back.

  /** The character that was looked at is there again when it was pushed back. */
  predicate Restored(l: Lexeme) {
    l.End? || (l.Lexeme? && l.c != 0 && l.c != EOF && l.next.peek == 0)
  }

  /** Reading again what was pushed back */
  lemma {:induction false} LexFromBack(s: seq<byte>, cdata: bool, entities: map<seq<byte>, nat>)
    ensures var l := LexFrom(s, cdata, entities);
      l.Lexeme? && 0 < l.c < 256 && l.next.peek == 0 ==> LexFrom([l.c] + l.next.rest, l.next.cdata, entities) == l
    ensures var l := LexFrom(s, cdata, entities); l.Lexeme? && l.next.peek !in {0, EOF} ==> l.c == l.next.peek == 93
    decreases |s|
  {
    hide Skipped, IsXmlDeclaration, TakeName, CharValue, CStr;
    var l := LexFrom(s, cdata, entities);
    if l.Lexeme? {
      assert 0 < l.c < 256 ==> ([l.c] + l.next.rest)[1..] == l.next.rest;
      if cdata && |s| > 2 && s[0] == 93 && s[1] == 93 && s[2] == 62 {
        LexFromBack(s[3..], false, entities);
      } else if !cdata && s[0] == 60 {
        var r := SkipBlanks(s[1..]);
        if r != [] && IsMarkup(r[0]) && !IsXmlDeclaration(r) {
          LexFromBack(Skipped(r).0, Skipped(r).1, entities);
        }
      }
    }
  }

  lemma LexBack(p: Pos, entities: map<seq<byte>, nat>)
    ensures var l := Lex(p, entities);
      && (l.Lexeme? && Restored(l) ==> Lex(l.next.(peek := l.c), entities) == l)
      && (l.Lexeme? && l.next.peek !in {0, EOF} ==> l.c == l.next.peek)
  {
    hide LexFrom;
    if p.peek == 0 {
      LexFromBack(p.rest, p.cdata, entities);
    } else if 0 < p.peek < 256 {
      LexFromBack([p.peek] + p.rest, p.cdata, entities);
    }
  }

  /** What a slash in front of p does: it ends an inner element exactly if a bracket is the next
      character, whatever this bracket belongs to; and the next character is read again exactly if it
      can be pushed back. */
  lemma SlashStep(p: Pos, n: nat, flag: bool, entities: map<seq<byte>, nat>)
    requires n > 0
    ensures var l, s := Lex(p, entities), StepOf(47, p, n, flag, entities);
      && (s.NoStep? <==> l.Unclear? || (l.Lexeme? && Lost(l.c, l.next)))
      && (s.Put? ==> s.b == [47] && s.m == if l.Lexeme? && l.c == SOAP_GT then n - 1 else n)
      && (s.Put? ==> (Lex(s.q, entities) == l <==> Restored(l)))
  {
    hide LexFrom;
    LexBack(p, entities);
  }

  /** A slash and a bracket: the text goes on in one inner element less. */
  lemma SlashBracket(rest: seq<byte>, n: nat, flag: bool, entities: map<seq<byte>, nat>)
    requires n > 0
    ensures TextOf(Plain([47, 62] + rest), n, flag, entities)
            == TextOf(Plain(rest), n - 1, flag, entities).After([47, 62])
  {
    var t := TextOf(Plain(rest), n - 1, flag, entities);
    assert ([47, 62] + rest)[1..] == [62] + rest && ([62] + rest)[1..] == rest;
    assert Read8(Plain([47, 62] + rest), entities) == Lexeme(47, Plain([62] + rest));
    BracketBack(rest, n, flag, entities);
    assert [47] + [62] == [47, 62];
    AfterTwice(t, [47], [62]);
  }

  lemma BracketBack(rest: seq<byte>, n: nat, flag: bool, entities: map<seq<byte>, nat>)
    requires n > 0
    ensures StepOf(47, Plain([62] + rest), n, flag, entities) == Put([47], n - 1, Pos(SOAP_GT, rest, false))
    ensures TextOf(Pos(SOAP_GT, rest, false), n - 1, flag, entities)
            == TextOf(Plain(rest), n - 1, flag, entities).After([62])
  {
    assert ([62] + rest)[1..] == rest;
  }

  /** An ASCII character that is not a slash in an inner element adds itself. */
  lemma LowByte(p: Pos, b: byte, q: Pos, n: nat, flag: bool, entities: map<seq<byte>, nat>)
    requires p.peek < 256 && b < 0x80 && Lex(p, entities) == Lexeme(b, q) && (b == 47 ==> n == 0)
    ensures TextOf(p, n, flag, entities) == TextOf(q, n, flag, entities).After([b])
  {
    hide Lex, Sequence;
    assert StepOf(b, q, n, flag, entities) == Put([b], n, q);
  }

  // ---------- well-formed content ----------

  /** The text of an element, as it is written: characters, references to the five predefined entities,
      inner elements, and empty ones.  What is behind a name are attributes. */
  datatype Node =
    | Chars(s: seq<byte>)
    | Entity(name: seq<byte>)
    | Element(name: seq<byte>, attributes: seq<byte>, content: seq<Node>)
    | Empty(name: seq<byte>, attributes: seq<byte>)

  /** ASCII characters without markup and slashes; there may be quotes. */
  predicate IsPlain(s: seq<byte>) {
    forall i :: 0 <= i < |s| ==> s[i] < 0x80 && s[i] !in {60, 62, 38, 47}
  }

  predicate IsName(s: seq<byte>) {
    s != [] && IsPlain(s) && s[0] > 32 && s[0] !in {33, 63, 37}
  }

  predicate WellFormed(nodes: seq<Node>) {
    nodes == [] || (WellFormed(nodes[1..]) &&
      match nodes[0]
      case Chars(s) => IsPlain(s)
      case Entity(name) => name in {NAME_LT, NAME_GT, NAME_AMP, NAME_QUOT, NAME_APOS}
      case Element(name, attributes, content) => IsName(name) && IsPlain(attributes) && WellFormed(content)
      case Empty(name, attributes) => IsName(name) && IsPlain(attributes))
  }

  /** What is written; `decoded` is with the characters the references stand for. */
  function Xml(nodes: seq<Node>, decoded: bool): seq<byte> {
    if nodes == [] then []
    else NodeXml(nodes[0], decoded) + Xml(nodes[1..], decoded)
  }

  function NodeXml(node: Node, decoded: bool): seq<byte>
    decreases node
  {
    match node
    case Chars(s) => s
    case Entity(name) => if decoded then [EntityByte(name)] else [38] + name + [59]
    case Element(name, attributes, content) =>
      [60] + (name + (attributes + ([62] + (Xml(content, decoded) + ([60, 47] + (name + [62]))))))
    case Empty(name, attributes) => [60] + (name + (attributes + [47, 62]))
  }

  function EntityByte(name: seq<byte>): byte {
    if name == Ascii("lt") then 60
    else if name == Ascii("gt") then 62
    else if name == Ascii("amp") then 38
    else if name == Ascii("quot") then 34
    else 39
  }

  /** Whatever follows a in n inner elements: s is stored for it, and m are open behind it. */
  ghost predicate Reads(a: seq<byte>, n: nat, s: seq<byte>, m: nat, flag: bool, entities: map<seq<byte>, nat>) {
    forall rest :: TextOf(Plain(a + rest), n, flag, entities) == TextOf(Plain(rest), m, flag, entities).After(s)
  }

  lemma ReadsThen(a: seq<byte>, n: nat, s: seq<byte>, m: nat, b: seq<byte>, t: seq<byte>, k: nat, flag: bool,
                  entities: map<seq<byte>, nat>)
    requires Reads(a, n, s, m, flag, entities) && Reads(b, m, t, k, flag, entities)
    ensures Reads(a + b, n, s + t, k, flag, entities)
  {
    hide TextOf;
    forall rest
      ensures TextOf(Plain(a + b + rest), n, flag, entities)
              == TextOf(Plain(rest), k, flag, entities).After(s + t)
    {
      ConcatAssociative(a, b, rest);
      AfterTwice(TextOf(Plain(rest), k, flag, entities), s, t);
      assert TextOf(Plain(b + rest), m, flag, entities) == TextOf(Plain(rest), k, flag, entities).After(t);
    }
  }

  lemma ReadsNothing(n: nat, flag: bool, entities: map<seq<byte>, nat>)
    ensures Reads([], n, [], n, flag, entities)
  {
    hide TextOf;
    forall rest: seq<byte>
      ensures TextOf(Plain([] + rest), n, flag, entities) == TextOf(Plain(rest), n, flag, entities).After([])
    {
      assert [] + rest == rest;
      AfterNothing(TextOf(Plain(rest), n, flag, entities));
    }
  }

  /** A character, a quote or a bracket */
  lemma ReadsByte(b: byte, n: nat, flag: bool, entities: map<seq<byte>, nat>)
    requires b < 0x80 && b !in {60, 38, 47}
    ensures Reads([b], n, [b], n, flag, entities)
  {
    forall rest
      ensures TextOf(Plain([b] + rest), n, flag, entities) == TextOf(Plain(rest), n, flag, entities).After([b])
    {
      ByteRead(b, rest, n, flag, entities);
    }
  }

  lemma ByteRead(b: byte, rest: seq<byte>, n: nat, flag: bool, entities: map<seq<byte>, nat>)
    requires b < 0x80 && b !in {60, 38, 47}
    ensures TextOf(Plain([b] + rest), n, flag, entities) == TextOf(Plain(rest), n, flag, entities).After([b])
  {
    assert ([b] + rest)[1..] == rest;
    var c := if b == 62 then SOAP_GT else if b == 34 then SOAP_QT else if b == 39 then SOAP_AP else b;
    assert Lex(Plain([b] + rest), entities) == Lexeme(c, Plain(rest));
    hide Lex;
    assert StepOf(c, Plain(rest), n, flag, entities) == Put([b], n, Plain(rest));
  }

  lemma {:induction false} ReadsPlain(a: seq<byte>, n: nat, flag: bool, entities: map<seq<byte>, nat>)
    requires IsPlain(a)
    ensures Reads(a, n, a, n, flag, entities)
    decreases a
  {
    hide Reads;
    if a == [] {
      ReadsNothing(n, flag, entities);
    } else {
      ReadsByte(a[0], n, flag, entities);
      ReadsPlain(a[1..], n, flag, entities);
      ReadsThen([a[0]], n, [a[0]], n, a[1..], a[1..], n, flag, entities);
      assert [a[0]] + a[1..] == a;
    }
  }

  /** The bracket of a start tag, in front of a name: one more inner element is open. */
  lemma ReadsOpen(name: seq<byte>, n: nat, flag: bool, entities: map<seq<byte>, nat>)
    requires IsName(name)
    ensures Reads([60] + name, n, [60] + name, n + 1, flag, entities)
  {
    hide TextOf;
    ReadsPlain(name, n + 1, flag, entities);
    forall rest
      ensures TextOf(Plain([60] + name + rest), n, flag, entities)
              == TextOf(Plain(rest), n + 1, flag, entities).After([60] + name)
    {
      OpenRead(name + rest, n, flag, entities);
      ConcatAssociative([60], name, rest);
      assert TextOf(Plain(name + rest), n + 1, flag, entities)
          == TextOf(Plain(rest), n + 1, flag, entities).After(name);
      AfterTwice(TextOf(Plain(rest), n + 1, flag, entities), [60], name);
    }
  }

  lemma OpenRead(s: seq<byte>, n: nat, flag: bool, entities: map<seq<byte>, nat>)
    requires s != [] && s[0] > 32 && s[0] !in {47, 33, 63, 37}
    ensures TextOf(Plain([60] + s), n, flag, entities) == TextOf(Plain(s), n + 1, flag, entities).After([60])
  {
    assert ([60] + s)[1..] == s && SkipBlanks(s) == s;
    assert Lex(Plain([60] + s), entities) == Lexeme(SOAP_LT, Plain(s));
    hide Lex;
  }

  /** An end tag closes one. */
  lemma ReadsClose(n: nat, flag: bool, entities: map<seq<byte>, nat>)
    ensures Reads([60, 47], n + 1, [60, 47], n, flag, entities)
  {
    forall rest
      ensures TextOf(Plain([60, 47] + rest), n + 1, flag, entities)
              == TextOf(Plain(rest), n, flag, entities).After([60, 47])
    {
      CloseRead(rest, n, flag, entities);
    }
  }

  lemma CloseRead(rest: seq<byte>, n: nat, flag: bool, entities: map<seq<byte>, nat>)
    ensures TextOf(Plain([60, 47] + rest), n + 1, flag, entities)
            == TextOf(Plain(rest), n, flag, entities).After([60, 47])
  {
    var s := [60, 47] + rest;
    assert s[1..] == [47] + rest && SkipBlanks([47] + rest) == [47] + rest && ([47] + rest)[1..] == rest;
    assert Lex(Plain(s), entities) == Lexeme(SOAP_TT, Plain(rest));
    hide Lex;
  }

  lemma ReadsEmpty(n: nat, flag: bool, entities: map<seq<byte>, nat>)
    ensures Reads([47, 62], n + 1, [47, 62], n, flag, entities)
  {
    hide TextOf;
    forall rest
      ensures TextOf(Plain([47, 62] + rest), n + 1, flag, entities)
              == TextOf(Plain(rest), n, flag, entities).After([47, 62])
    {
      SlashBracket(rest, n + 1, flag, entities);
    }
  }

  lemma ReadsEntity(name: seq<byte>, n: nat, flag: bool, entities: map<seq<byte>, nat>)
    requires name in {NAME_LT, NAME_GT, NAME_AMP, NAME_QUOT, NAME_APOS}
    ensures Reads([38] + name + [59], n, NodeXml(Entity(name), flag), n, flag, entities)
  {
    hide TextOf, Lex;
    forall rest
      ensures TextOf(Plain([38] + name + [59] + rest), n, flag, entities)
              == TextOf(Plain(rest), n, flag, entities).After(NodeXml(Entity(name), flag))
    {
      EntityRead(name, rest, n, flag, entities);
    }
  }

  lemma EntityRead(name: seq<byte>, rest: seq<byte>, n: nat, flag: bool, entities: map<seq<byte>, nat>)
    requires name in {NAME_LT, NAME_GT, NAME_AMP, NAME_QUOT, NAME_APOS}
    ensures TextOf(Plain([38] + name + [59] + rest), n, flag, entities)
            == TextOf(Plain(rest), n, flag, entities).After(NodeXml(Entity(name), flag))
  {
    hide Lex, Sequence;
    LexRef(name, rest, entities);
    EntityValue(name, entities);
    var c := Ref(CharValue(name, entities));
    EntityStored(name, flag);
    assert StepOf(c, Plain(rest), n, flag, entities) == Put(Stored(c, flag), n, Plain(rest));
  }

  lemma EntityValue(name: seq<byte>, entities: map<seq<byte>, nat>)
    requires name in {NAME_LT, NAME_GT, NAME_AMP, NAME_QUOT, NAME_APOS}
    ensures CharValue(name, entities) == EntityByte(name)
  {
  }

  lemma EntityStored(name: seq<byte>, flag: bool)
    requires name in {NAME_LT, NAME_GT, NAME_AMP, NAME_QUOT, NAME_APOS}
    ensures Stored(Ref(EntityByte(name)), flag) == NodeXml(Entity(name), flag)
  {
  }

  /** A node at any depth is stored as it is written, with the characters of its references if `flag`
      says so, and the depth behind it is the same. */
  lemma {:induction false} ReadsNode(node: Node, n: nat, flag: bool, entities: map<seq<byte>, nat>)
    requires WellFormed([node])
    ensures Reads(NodeXml(node, false), n, NodeXml(node, flag), n, flag, entities)
    decreases node, 0
  {
    hide Reads;
    match node
    case Chars(s) => ReadsPlain(s, n, flag, entities);
    case Entity(name) => ReadsEntity(name, n, flag, entities);
    case Element(name, attributes, content) =>
      ReadsXml(content, n + 1, flag, entities);
      ReadsElement(name, attributes, Xml(content, false), Xml(content, flag), n, flag, entities);
    case Empty(name, attributes) => ReadsEmptyElement(name, attributes, n, flag, entities);
  }

  lemma ReadsElement(name: seq<byte>, attributes: seq<byte>, x: seq<byte>, y: seq<byte>, n: nat, flag: bool,
                     entities: map<seq<byte>, nat>)
    requires IsName(name) && IsPlain(attributes) && Reads(x, n + 1, y, n + 1, flag, entities)
    ensures Reads([60] + (name + (attributes + ([62] + (x + ([60, 47] + (name + [62])))))), n,
                  [60] + (name + (attributes + ([62] + (y + ([60, 47] + (name + [62])))))), n, flag, entities)
  {
    hide Reads;
    ReadsByte(62, n, flag, entities);
    ReadsPlain(name, n, flag, entities);
    ReadsThen(name, n, name, n, [62], [62], n, flag, entities);
    ReadsClose(n, flag, entities);
    ReadsThen([60, 47], n + 1, [60, 47], n, name + [62], name + [62], n, flag, entities);
    var end := [60, 47] + (name + [62]);
    ReadsThen(x, n + 1, y, n + 1, end, end, n, flag, entities);
    ReadsByte(62, n + 1, flag, entities);
    ReadsThen([62], n + 1, [62], n + 1, x + end, y + end, n, flag, entities);
    ReadsPlain(attributes, n + 1, flag, entities);
    ReadsThen(attributes, n + 1, attributes, n + 1, [62] + (x + end), [62] + (y + end), n, flag, entities);
    ReadsOpen(name, n, flag, entities);
    var a, b := attributes + ([62] + (x + end)), attributes + ([62] + (y + end));
    ReadsThen([60] + name, n, [60] + name, n + 1, a, b, n, flag, entities);
    ConcatAssociative([60], name, a);
    ConcatAssociative([60], name, b);
  }

  lemma ReadsEmptyElement(name: seq<byte>, attributes: seq<byte>, n: nat, flag: bool, entities: map<seq<byte>, nat>)
    requires IsName(name) && IsPlain(attributes)
    ensures var a := [60] + (name + (attributes + [47, 62])); Reads(a, n, a, n, flag, entities)
  {
    hide Reads;
    ReadsEmpty(n, flag, entities);
    ReadsPlain(attributes, n + 1, flag, entities);
    ReadsThen(attributes, n + 1, attributes, n + 1, [47, 62], [47, 62], n, flag, entities);
    ReadsOpen(name, n, flag, entities);
    var a := attributes + [47, 62];
    ReadsThen([60] + name, n, [60] + name, n + 1, a, a, n, flag, entities);
    ConcatAssociative([60], name, a);
  }

  lemma {:induction false} ReadsXml(nodes: seq<Node>, n: nat, flag: bool, entities: map<seq<byte>, nat>)
    requires WellFormed(nodes)
    ensures Reads(Xml(nodes, false), n, Xml(nodes, flag), n, flag, entities)
    decreases nodes, 1
  {
    hide Reads, NodeXml;
    if nodes == [] {
      ReadsNothing(n, flag, entities);
    } else {
      assert [nodes[0]][1..] == [];
      ReadsNode(nodes[0], n, flag, entities);
      ReadsXml(nodes[1..], n, flag, entities);
      ReadsThen(NodeXml(nodes[0], false), n, NodeXml(nodes[0], flag), n,
                Xml(nodes[1..], false), Xml(nodes[1..], flag), n, flag, entities);
    }
  }

  lemma EndTag(rest: seq<byte>, flag: bool, entities: map<seq<byte>, nat>)
    ensures TextOf(Plain([60, 47] + rest), 0, flag, entities) == Text([], SOAP_TT, Pos(SOAP_TT, rest, false))
  {
    var end := [60, 47] + rest;
    assert end[1..] == [47] + rest && ([47] + rest)[1..] == rest;
    assert Lex(Plain(end), entities) == Lexeme(SOAP_TT, Plain(rest));
  }

  /** Well-formed content in front of an end tag is collected up to this tag: as it was written, if the
      text is to stay markup; else with the characters its references stand for. */
  lemma ContentReadBack(nodes: seq<Node>, rest: seq<byte>, flag: bool, entities: map<seq<byte>, nat>)
    requires WellFormed(nodes)
    ensures TextOf(Plain(Xml(nodes, false) + ([60, 47] + rest)), 0, flag, entities)
            == Text(Xml(nodes, flag), SOAP_TT, Pos(SOAP_TT, rest, false))
  {
    hide TextOf, Xml, WellFormed;
    ReadsXml(nodes, 0, flag, entities);
    EndTag(rest, flag, entities);
    assert Xml(nodes, flag) + [] == Xml(nodes, flag);
  }

  /** The text of a in <a><b>x</b></a> */
  lemma InnerElement(rest: seq<byte>, entities: map<seq<byte>, nat>)
    ensures TextOf(Plain(Ascii("<b>x</b></a>") + rest), 0, true, entities)
            == Text(Ascii("<b>x</b>"), SOAP_TT, Pos(SOAP_TT, Ascii("a>") + rest, false))
  {
    hide TextOf, Reads;
    var text := Ascii("<b>x</b>");
    ReadsByte(120, 1, true, entities);
    ReadsElement([98], [], [120], [120], 0, true, entities);
    assert [60] + ([98] + ([] + ([62] + ([120] + ([60, 47] + ([98] + [62])))))) == text;
    ReadsText(text, [60, 47] + (Ascii("a>") + rest), true, entities);
    EndTag(Ascii("a>") + rest, true, entities);
    assert Ascii("<b>x</b></a>") + rest == text + ([60, 47] + (Ascii("a>") + rest));
    assert text + [] == text;
  }

  /** Text with a slash and a bracket inside of an inner element ends one end tag too early: of
      <b>/></b> the end tag is taken for the end of the text. */
  lemma EarlyEnd(rest: seq<byte>, flag: bool, entities: map<seq<byte>, nat>)
    ensures TextOf(Plain(Ascii("<b>/></") + rest), 0, flag, entities)
            == Text(Ascii("<b>/>"), SOAP_TT, Pos(SOAP_TT, rest, false))
  {
    hide TextOf, Reads;
    ReadsOpen([98], 0, flag, entities);
    ReadsByte(62, 1, flag, entities);
    ReadsThen([60] + [98], 0, [60] + [98], 1, [62], [62], 1, flag, entities);
    ReadsEmpty(0, flag, entities);
    var b := [60] + [98] + [62];
    ReadsThen(b, 0, b, 1, [47, 62], [47, 62], 0, flag, entities);
    assert b + [47, 62] == Ascii("<b>/>");
    ReadsText(Ascii("<b>/>"), [60, 47] + rest, flag, entities);
    EndTag(rest, flag, entities);
    assert Ascii("<b>/></") + rest == Ascii("<b>/>") + ([60, 47] + rest);
    assert Ascii("<b>/>") + [] == Ascii("<b>/>");
  }

  lemma ReadsText(a: seq<byte>, rest: seq<byte>, flag: bool, entities: map<seq<byte>, nat>)
    requires Reads(a, 0, a, 0, flag, entities)
    ensures TextOf(Plain(a + rest), 0, flag, entities) == TextOf(Plain(rest), 0, flag, entities).After(a)
  {
  }

  /** What is stored of a section in an inner element: a zero byte behind a slash is lost, and so is a
      bracket with another one behind it, which may be that of the end. */
  function Lossy(a: seq<byte>): (r: seq<byte>)
    ensures |r| <= |a|
  {
    if a == [] then []
    else if LosesNext(a) then [47] + Lossy(a[2..])
    else [a[0]] + Lossy(a[1..])
  }

  predicate LosesNext(a: seq<byte>) {
    |a| > 1 && a[0] == 47 && (a[1] == 0 || (a[1] == 93 && (|a| == 2 || a[2] == 93)))
  }

  /** Nothing is lost exactly if no slash in the section loses the next character. */
  lemma {:induction false} LossyExact(a: seq<byte>)
    ensures Lossy(a) == a <==> forall i :: 0 <= i < |a| ==> !LosesNext(a[i..])
    ensures Lossy(a) == a <==> |Lossy(a)| == |a|
    decreases a
  {
    if a == [] {
    } else if LosesNext(a) {
      assert a[0..] == a;
    } else {
      LossyExact(a[1..]);
      assert a[0..] == a;
      assert forall i :: 0 <= i < |a| - 1 ==> a[1..][i..] == a[i + 1..];
      assert a == [a[0]] + a[1..];
      if i :| 0 <= i < |a| && LosesNext(a[i..]) {
        assert LosesNext(a[1..][i - 1..]);
      }
    }
  }

  /** The text behind a section: a slash at its end looks at what follows. */
  ghost function AfterSection(a: seq<byte>, rest: seq<byte>, n: nat, flag: bool, entities: map<seq<byte>, nat>): Text {
    if a != [] && a[|a| - 1] == 47 && n > 0 then
      match StepOf(47, Plain(rest), n, flag, entities)
      case Put(_, m, q) => TextOf(q, m, flag, entities)
      case _ => NoText
    else TextOf(Plain(rest), n, flag, entities)
  }

  /** What is stored of a section */
  function Kept(a: seq<byte>, n: nat): seq<byte> {
    if n == 0 then a else Lossy(a)
  }

  lemma SectionSlash(p: Pos, q: Pos, n: nat, flag: bool, entities: map<seq<byte>, nat>)
    requires p.peek < 256 && Lex(p, entities) == Lexeme(47, q)
    ensures TextOf(p, n, flag, entities) ==
      match StepOf(47, q, n, flag, entities)
      case Put(b, m, r) => TextOf(r, m, flag, entities).After(b)
      case _ => NoText
  {
    hide Lex, Sequence;
  }

  /** In front of s, in a section */
  function Within(s: seq<byte>): Pos {
    Pos(0, s, true)
  }

  lemma NextInSection(a: seq<byte>, rest: seq<byte>, n: nat, flag: bool, entities: map<seq<byte>, nat>)
    requires a != [] && IsSection(a) && (a[0] == 47 ==> n == 0)
    ensures TextOf(Within(a + (SECTION_END + rest)), n, flag, entities)
            == TextOf(Within(a[1..] + (SECTION_END + rest)), n, flag, entities).After([a[0]])
  {
    hide TextOf;
    var s := a + (SECTION_END + rest);
    assert s[1..] == a[1..] + (SECTION_END + rest);
    if s[0] == 93 && s[1] == 93 {
      assert s[2] == if |a| > 2 then a[2] else 93;
      assert s[1..] == [93] + s[2..];
      LowByte(Within(s), 93, Pos(93, s[2..], true), n, flag, entities);
      TextSame(Pos(93, s[2..], true), Within(s[1..]), n, flag, entities);
    } else {
      LowByte(Within(s), a[0], Within(s[1..]), n, flag, entities);
    }
  }

  /** A slash inside of the section */
  lemma SlashInSection(a: seq<byte>, rest: seq<byte>, n: nat, flag: bool, entities: map<seq<byte>, nat>)
    requires |a| > 1 && IsSection(a) && a[0] == 47 && n > 0
    ensures var more := if LosesNext(a) then a[2..] else a[1..];
      TextOf(Within(a + (SECTION_END + rest)), n, flag, entities)
      == TextOf(Within(more + (SECTION_END + rest)), n, flag, entities).After([47])
  {
    hide TextOf, StepOf;
    var s, end := a + (SECTION_END + rest), SECTION_END + rest;
    var t := a[1..] + end;
    assert s[1..] == t && t[1..] == a[2..] + end;
    assert Lex(Within(s), entities) == Lexeme(47, Within(t));
    SectionSlash(Within(s), Within(t), n, flag, entities);
    if t[0] == 93 && t[1] == 93 {
      assert t[2] == if |a| > 3 then a[3] else 93;
    }
    AfterSlash(t, n, flag, entities);
  }

  /** Behind a slash, in a section that does not end here */
  lemma AfterSlash(t: seq<byte>, n: nat, flag: bool, entities: map<seq<byte>, nat>)
    requires |t| > 1 && n > 0 && t[0] < 0x80 && (t[0] == 93 && t[1] == 93 ==> |t| > 2 && t[2] != 62)
    ensures var s := StepOf(47, Within(t), n, flag, entities);
      s.Put? && s.b == [47] &&
      TextOf(s.q, s.m, flag, entities) ==
        TextOf(Within(if t[0] == 0 || (t[0] == 93 && t[1] == 93) then t[1..] else t), n, flag, entities)
  {
    hide TextOf;
    if t[0] == 93 && t[1] == 93 {
      assert t[1..] == [93] + t[2..];
      assert Lex(Within(t), entities) == Lexeme(93, Pos(93, t[2..], true));
      TextSame(Pos(93, t[2..], true), Within(t[1..]), n, flag, entities);
    } else {
      assert Lex(Within(t), entities) == Lexeme(t[0], Within(t[1..]));
      if t[0] != 0 {
        assert t == [t[0]] + t[1..];
        TextSame(Pos(t[0], t[1..], true), Within(t), n, flag, entities);
      }
    }
  }

  /** A slash at the end of the section looks behind the section. */
  lemma SlashAtEnd(rest: seq<byte>, n: nat, flag: bool, entities: map<seq<byte>, nat>)
    requires n > 0
    ensures TextOf(Within([47] + (SECTION_END + rest)), n, flag, entities)
            == AfterSection([47], rest, n, flag, entities).After([47])
  {
    hide TextOf;
    var s := [47] + (SECTION_END + rest);
    assert s[1..] == SECTION_END + rest;
    SectionSlash(Within(s), Within(s[1..]), n, flag, entities);
    SectionLeft(rest, entities);
    StepSame(Within(s[1..]), Plain(rest), n, flag, entities);
    SlashPuts(Plain(rest), n, flag, entities);
  }

  lemma StepSame(p: Pos, q: Pos, n: nat, flag: bool, entities: map<seq<byte>, nat>)
    requires Lex(p, entities) == Lex(q, entities) && n > 0
    ensures StepOf(47, p, n, flag, entities) == StepOf(47, q, n, flag, entities)
  {
    hide Lex;
  }

  lemma SlashPuts(p: Pos, n: nat, flag: bool, entities: map<seq<byte>, nat>)
    requires n > 0
    ensures var s := StepOf(47, p, n, flag, entities); !s.Stop? && (s.Put? ==> s.b == [47])
  {
    hide Lex;
  }

  lemma {:induction false} SectionInside(a: seq<byte>, rest: seq<byte>, n: nat, flag: bool,
                                         entities: map<seq<byte>, nat>)
    requires IsSection(a)
    ensures TextOf(Within(a + (SECTION_END + rest)), n, flag, entities)
            == AfterSection(a, rest, n, flag, entities).After(Kept(a, n))
    decreases a
  {
    hide TextOf, Lex, StepOf, IsSection;
    var p := Within(a + (SECTION_END + rest));
    if a == [] {
      assert a + (SECTION_END + rest) == SECTION_END + rest;
      SectionLeft(rest, entities);
      TextSame(p, Plain(rest), n, flag, entities);
      AfterNothing(TextOf(Plain(rest), n, flag, entities));
    } else if a == [47] && n > 0 {
      SlashAtEnd(rest, n, flag, entities);
    } else {
      var more := if n > 0 && LosesNext(a) then a[2..] else a[1..];
      ShorterSection(a);
      SectionInside(more, rest, n, flag, entities);
      if a[0] == 47 && n > 0 {
        SlashInSection(a, rest, n, flag, entities);
      } else {
        NextInSection(a, rest, n, flag, entities);
      }
      var t := AfterSection(a, rest, n, flag, entities);
      assert t == AfterSection(more, rest, n, flag, entities);
      AfterTwice(t, [a[0]], Kept(more, n));
      assert n == 0 ==> [a[0]] + a[1..] == a;
    }
  }

  lemma ShorterSection(a: seq<byte>)
    requires a != [] && IsSection(a)
    ensures IsSection(a[1..]) && (|a| > 1 ==> IsSection(a[2..]))
  {
  }

  /** A CDATA section of a text: outside of inner elements it stands for what is in it. */
  lemma SectionInText(a: seq<byte>, rest: seq<byte>, n: nat, flag: bool, entities: map<seq<byte>, nat>)
    requires IsSection(a)
    ensures TextOf(Plain(SECTION + (a + (SECTION_END + rest))), n, flag, entities)
            == AfterSection(a, rest, n, flag, entities).After(Kept(a, n))
  {
    hide TextOf, Lex;
    var s := a + (SECTION_END + rest);
    SectionEntered(s, entities);
    TextSame(Plain(SECTION + s), Within(s), n, flag, entities);
    SectionInside(a, rest, n, flag, entities);
  }

  /** In inner elements a section that does not end with a slash, in front of a text that ends, stands
      for what is in it exactly if no slash in it loses the next character. */
  lemma SectionLiteral(a: seq<byte>, rest: seq<byte>, n: nat, flag: bool, entities: map<seq<byte>, nat>)
    requires IsSection(a) && n > 0 && (a != [] ==> a[|a| - 1] != 47) && TextOf(Plain(rest), n, flag, entities).Text?
    ensures TextOf(Plain(SECTION + (a + (SECTION_END + rest))), n, flag, entities)
              == TextOf(Plain(rest), n, flag, entities).After(a)
            <==> forall i :: 0 <= i < |a| ==> !LosesNext(a[i..])
  {
    hide TextOf;
    SectionInText(a, rest, n, flag, entities);
    LossyExact(a);
    var t := TextOf(Plain(rest), n, flag, entities).text;
    assert |Lossy(a) + t| == |Lossy(a)| + |t| && |a + t| == |a| + |t|;
  }

  /** A slash at the end of a section: the text goes on behind the section unless a bracket follows,
      which leaves an inner element, or a character that cannot be pushed back. */
  lemma SlashEndsSection(a: seq<byte>, rest: seq<byte>, n: nat, flag: bool, entities: map<seq<byte>, nat>)
    requires n > 0 && a != [] && a[|a| - 1] == 47 && Restored(Lex(Plain(rest), entities))
    ensures var l := Lex(Plain(rest), entities);
      AfterSection(a, rest, n, flag, entities) ==
        if l.Lexeme? && l.c == SOAP_GT then TextOf(Plain(rest), n - 1, flag, entities)
        else TextOf(Plain(rest), n, flag, entities)
  {
    hide Lex, TextOf;
    SlashStep(Plain(rest), n, flag, entities);
    var s := StepOf(47, Plain(rest), n, flag, entities);
    var l := Lex(Plain(rest), entities);
    if l.Lexeme? && l.c >= 256 {
      PlainLexeme(rest, entities);
    }
    TextSame(s.q, Plain(rest), s.m, flag, entities);
  }

  lemma PlainLexeme(s: seq<byte>, entities: map<seq<byte>, nat>)
    ensures var l := Lex(Plain(s), entities); l.Lexeme? ==> l.c < 256
  {
  }

  /** An input: of two brackets behind a slash one is lost. */
  lemma SlashLosesBracket(rest: seq<byte>, n: nat, flag: bool, entities: map<seq<byte>, nat>)
    requires rest != [] && rest[0] != 62 && n > 0
    ensures TextOf(Pos(0, [47, 93, 93] + rest, true), n, flag, entities)
            == TextOf(Pos(0, [93] + rest, true), n, flag, entities).After([47])
  {
    var s := [47, 93, 93] + rest;
    var p, q := Pos(0, s[1..], true), Pos(93, rest, true);
    assert s[1..] == [93, 93] + rest && ([93, 93] + rest)[2..] == rest;
    assert Lex(p, entities) == Lexeme(93, q);
    assert StepOf(47, p, n, flag, entities) == Put([47], n, q);
    assert Read8(Pos(0, s, true), entities) == Lexeme(47, p);
    TextSame(q, Pos(0, [93] + rest, true), n, flag, entities);
  }

  /** The code of a byte that may end a value */
  function EndCode(b: byte): int {
    match b
    case 34 => SOAP_QT
    case 39 => SOAP_AP
    case 62 => SOAP_GT
    case _ => b
  }

  /** The byte b ends a value with this delimiter: a quote of its kind, and without quotes a blank, a
      slash or a bracket. */
  predicate EndsValue(b: byte, d: int) {
    if d == SOAP_QT then b == 34 else if d == SOAP_AP then b == 39 else b in {9, 10, 13, 32, 47, 62}
  }

  /** The escaped form of c does not end the value: of the bytes that would, some are escaped. */
  predicate StaysInside(c: byte, d: int) {
    if d == SOAP_QT then true else if d == SOAP_AP then c != 39 else c !in {32, 47, 62}
  }

  /** An escaped value in front of its end is read back as it was, in quotes of either kind or none. */
  lemma {:induction false} ValueReadBack(s: seq<byte>, d: int, end: byte, rest: seq<byte>,
                                         entities: map<seq<byte>, nat>)
    requires IsDelimiter(d) && 0 !in s && EndsValue(end, d) && forall c :: c in s ==> StaysInside(c, d)
    ensures ValueOf(Plain(Escape(s, true) + ([end] + rest)), d, entities)
            == Value(s, EndCode(end), if d == 32 then Pos(EndCode(end), rest, false) else Plain(rest))
    decreases s
  {
    var tail := [end] + rest;
    if s == [] {
      assert [] + tail == tail;
      ValueEnds(d, end, rest, entities);
    } else {
      var more := Escape(s[1..], true) + tail;
      ConcatAssociative(EscapeByte(s[0], true), Escape(s[1..], true), tail);
      LexEscaped(s[0], true, more, entities);
      ValueReadBack(s[1..], d, end, rest, entities);
      assert [s[0]] + s[1..] == s;
      ValueReadOne(s[0], d, EscapeByte(s[0], true) + more, more, entities);
    }
  }

  lemma ValueEnds(d: int, end: byte, rest: seq<byte>, entities: map<seq<byte>, nat>)
    requires IsDelimiter(d) && EndsValue(end, d)
    ensures ValueOf(Plain([end] + rest), d, entities)
            == Value([], EndCode(end), if d == 32 then Pos(EndCode(end), rest, false) else Plain(rest))
  {
    assert ([end] + rest)[1..] == rest;
    assert Lex(Plain([end] + rest), entities) == Lexeme(EndCode(end), Plain(rest));
    hide Lex;
  }

  lemma ValueReadOne(c: byte, d: int, s: seq<byte>, r: seq<byte>, entities: map<seq<byte>, nat>)
    requires IsDelimiter(d) && c != 0 && StaysInside(c, d)
    requires Lex(Plain(s), entities) == Lexeme(CodeOf(c, true), Plain(r))
    ensures ValueOf(Plain(s), d, entities) == ValueOf(Plain(r), d, entities).After([c])
  {
    hide Lex, CodeOf, StoredValue, Ends;
    StoresValueByte(c, d);
  }

  lemma StoresValueByte(c: byte, d: int)
    requires IsDelimiter(d) && c != 0 && StaysInside(c, d)
    ensures var k := CodeOf(c, true); StoredValue(k) == c && k !in {EOF, SOAP_TT} && !Ends(k, d)
  {
  }

  /** A tag in a value is stored as it is. */
  lemma StartInValue(s: seq<byte>, d: int, entities: map<seq<byte>, nat>)
    requires IsDelimiter(d) && s != [] && s[0] > 32 && s[0] !in {33, 37, 47, 63}
    ensures ValueOf(Plain([60] + s), d, entities) == ValueOf(Plain(s), d, entities).After([60])
  {
    hide Lex;
    TagOpened([], s, entities);
    assert [] + s == s;
  }

  lemma EndInValue(s: seq<byte>, d: int, entities: map<seq<byte>, nat>)
    requires d in {SOAP_QT, SOAP_AP}
    ensures ValueOf(Plain([60, 47] + s), d, entities) == ValueOf(Plain([47] + s), d, entities).After([60])
  {
    TagClosed([], s, entities);
    assert [60] + ([] + ([47] + s)) == [60, 47] + s;
    SlashAgain(s, entities);
    ValueSame(Pos(47, s, false), Plain([47] + s), d, entities);
    hide Lex;
  }

  lemma SlashAgain(s: seq<byte>, entities: map<seq<byte>, nat>)
    ensures Lex(Pos(47, s, false), entities) == Lex(Plain([47] + s), entities)
  {
  }

  lemma ValueSame(p: Pos, q: Pos, d: int, entities: map<seq<byte>, nat>)
    requires Lex(p, entities) == Lex(q, entities)
    ensures ValueOf(p, d, entities) == ValueOf(q, d, entities)
  {
    hide Lex;
  }

  /** Sends escaped text between other bytes and connects the receiver. */
  method Transmit(before: seq<byte>, text: seq<byte>, after: seq<byte>, attribute: bool, mode: IoMode)
    returns (input: Input)
    requires 0 !in text && mode != Length
    ensures fresh(input) && fresh(input.buf) && fresh(input.sock) && input.Valid() && input.ahead == 0
    ensures input.Rest() == before + (Escape(text, attribute) + after)
  {
    hide Output.Valid, Input.Valid, Input.Rest, Escape;
    var line := new Socket([]);
    var output := new Output(line, mode);
    output.SendRaw(before);
    StringOut(output, text, attribute);
    output.SendRaw(after);
    assert output.sent == before + (Escape(text, attribute) + after);
    input := Deliver(output);
  }

  /** An element's text, sent in any mode and cut up in any way, is read as the string it was. */
  method TextRoundTrip(text: seq<byte>, rest: seq<byte>, mode: IoMode, entities: map<seq<byte>, nat>)
    returns (read: array<byte>)
    requires 0 !in text && mode != Length
    ensures read[..] == text + [0]
  {
    hide Input.Valid, Input.Rest, TextOf, Escape;
    TextReadBack(text, rest, entities);
    ghost var e := Escape(text, false) + ([60, 47] + rest);
    var input := Transmit([], text, [60, 47] + rest, false, mode);
    assert input.Rest() == e;
    var lexer := new Lexer(input, entities);
    var lab := new LookAside.Buffer();
    WholeCStr(text);
    read := StringIn(lexer, lab, true, Plain(e));
  }

  /** Well-formed content that is sent as it is, in any mode, and cut up in any way, is read as it was
      written, or with the characters its references stand for. */
  method ContentRoundTrip(nodes: seq<Node>, rest: seq<byte>, flag: bool, mode: IoMode,
                          entities: map<seq<byte>, nat>)
    returns (read: array<byte>)
    requires WellFormed(nodes) && 0 !in Xml(nodes, flag) && mode != Length
    ensures read[..] == Xml(nodes, flag) + [0]
  {
    hide Output.Valid, Input.Valid, Input.Rest, TextOf, Xml, WellFormed;
    ContentReadBack(nodes, rest, flag, entities);
    var e := Xml(nodes, false) + ([60, 47] + rest);
    var line := new Socket([]);
    var output := new Output(line, mode);
    output.SendRaw(e);
    assert [] + e == e;
    var input := Deliver(output);
    var lexer := new Lexer(input, entities);
    var lab := new LookAside.Buffer();
    WholeCStr(Xml(nodes, flag));
    read := StringIn(lexer, lab, flag, Plain(e));
  }

  /** An attribute's value, in quotes of either kind or none, is read as the string it was, whatever the
      size of the buffer it is first read into; and it is read into that buffer if it fits. */
  method ValueRoundTrip(text: seq<byte>, d: int, end: byte, rest: seq<byte>, size: nat, mode: IoMode,
                        entities: map<seq<byte>, nat>)
    returns (read: array<byte>)
    requires IsDelimiter(d) && 0 !in text && mode != Length
    requires EndsValue(end, d) && forall c :: c in text ==> StaysInside(c, d)
    ensures text + [0] <= read[..]
    ensures |text| < size ==> read.Length == size
  {
    hide Input.Valid, Input.Rest, ValueOf, Escape, EndCode;
    ValueReadBack(text, d, end, rest, entities);
    ghost var e := Escape(text, true) + ([end] + rest);
    var before := if d == 32 then [] else [end];
    var input := Transmit(before, text, [end] + rest, true, mode);
    if d != 32 {
      var quote := input.Get1();
    }
    assert input.Rest() == e;
    var lexer := new Lexer(input, entities);
    var lab := new LookAside.Buffer();
    var value := new byte[size];
    WholeCStr(text);
    var ok;
    ok, read := AttributeValue(lexer, lab, value, d, Plain(e));
  }
}
