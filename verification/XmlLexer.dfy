/** soap_get: XML characters from the input, with markup told from content.
    The character codes: a byte stands for itself, a character reference has bit 31 set
    (so it is negative), and a few negative codes stand for unescaped markup characters. */
module XmlLexer {
  import opened Bytes
  import opened SoapInput

  const SOAP_LT: int := -2    // '<'
  const SOAP_TT: int := -3    // '</'
  const SOAP_GT: int := -4    // '>'
  const SOAP_QT: int := -5    // '"'
  const SOAP_AP: int := -6    // '\''
  const SOAP_UNKNOWN_CHAR: nat := 127

  predicate IsBlank(c: int) {
    0 <= c <= 32
  }

  /** A character reference to v, as a 32-bit code: v | 0x80000000 */
  function Ref(v: int): (c: int)
    ensures c < 0
  {
    v % 0x8000_0000 - 0x8000_0000
  }

  // ---------- character references ----------

  /** The name of a reference, what follows, and whether the end of the input cuts it off. */
  datatype Name = Name(name: seq<byte>, rest: seq<byte>, cut: bool)

  /** Reads on in the name of a reference, of which tmp has been read: seven characters at most,
      up to ';' or the end of the input. */
  function TakeName(tmp: seq<byte>, s: seq<byte>): (t: Name)
    requires |tmp| <= 7
    ensures |t.rest| <= |s| && (|tmp| < 7 && s != [] ==> |t.rest| < |s|)
    ensures t.cut ==> t.rest == []
    decreases s
  {
    if |tmp| == 7 then Name(tmp, s, false)
    else if s == [] then Name(tmp, [], true)
    else if s[0] == 59 then Name(tmp, s[1..], false)
    else TakeName(tmp + [s[0]], s[1..])
  }

  function Digit(b: byte, radix: nat): Option<nat> {
    var d := if 48 <= b <= 57 then b - 48
             else if 65 <= b <= 70 then b - 55
             else if 97 <= b <= 102 then b - 87
             else 99;
    if d < radix then Some(d) else None
  }

  /** The value of the digits in front */
  function Number(s: seq<byte>, radix: nat, value: nat): nat {
    if s == [] || Digit(s[0], radix).None? then value
    else Number(s[1..], radix, radix * value + Digit(s[0], radix).value)
  }

  /** strtol: white space, a sign, and for hexadecimal numbers perhaps "0x" are in front of the digits. */
  function Strtol(s: seq<byte>, radix: nat): int
    decreases |s|
  {
    if s != [] && (s[0] == 32 || 9 <= s[0] <= 13) then Strtol(s[1..], radix)
    else if s != [] && s[0] == 45 then 0 - Digits(s[1..], radix)
    else if s != [] && s[0] == 43 then Digits(s[1..], radix)
    else Digits(s, radix)
  }

  function Digits(s: seq<byte>, radix: nat): nat {
    if radix == 16 && |s| > 2 && s[0] == 48 && s[1] in {120, 88} && Digit(s[2], 16).Some? then Number(s[2..], 16, 0)
    else Number(s, radix, 0)
  }

  /** A number may have white space, a sign or a second "0x" in front, and anything behind. */
  lemma LooseNumbers(b: byte, s: seq<byte>, radix: nat)
    requires radix in {10, 16}
    ensures b in {9, 10, 11, 12, 13, 32} ==> Strtol([b] + s, radix) == Strtol(s, radix)
    ensures s != [] && 48 <= s[0] <= 57 ==> Strtol([43] + s, radix) == Digits(s, radix) == Strtol(s, radix)
    ensures s != [] && 48 <= s[0] <= 57 ==> Strtol([45] + s, radix) == 0 - Strtol(s, radix)
    ensures Strtol([], radix) == 0
  {
    assert ([b] + s)[1..] == s && ([43] + s)[1..] == s && ([45] + s)[1..] == s;
    hide Digits, Number;
    NoDigits(radix);
  }

  lemma NoDigits(radix: nat)
    ensures Digits([], radix) == 0
  {
  }

  /** It ends in front of the first character that is no digit. */
  lemma NumberStops(c: byte, s: seq<byte>, v: nat)
    ensures !('0' <= c as char <= '9') ==> Number([c] + s, 10, v) == v
    ensures !('0' <= c as char <= '9' || 'A' <= c as char <= 'F' || 'a' <= c as char <= 'f') ==>
      Number([c] + s, 16, v) == v
  {
  }

  lemma SecondPrefix(x: byte, s: seq<byte>)
    requires x in {88, 120} && s != [] && 48 <= s[0] <= 57
    ensures Digits([48, x] + s, 16) == Number(s, 16, 0)
  {
    hide Number;
    assert ([48, x] + s)[2..] == s;
  }

  const NAME_LT: seq<byte> := [108, 116]
  const NAME_GT: seq<byte> := [103, 116]
  const NAME_AMP: seq<byte> := [97, 109, 112]
  const NAME_QUOT: seq<byte> := [113, 117, 111, 116]
  const NAME_APOS: seq<byte> := [97, 112, 111, 115]

  /** The character a name refers to; `entities` is the table html_entity_codes. */
  function CharValue(name: seq<byte>, entities: map<seq<byte>, nat>): int {
    if name != [] && name[0] == 35 then
      if |name| > 1 && name[1] in {120, 88} then Strtol(name[2..], 16) else Strtol(name[1..], 10)
    else if name == NAME_LT then 60
    else if name == NAME_GT then 62
    else if name == NAME_AMP then 38
    else if name == NAME_QUOT then 34
    else if name == NAME_APOS then 39
    else if name != [] && name in entities then entities[name]
    else SOAP_UNKNOWN_CHAR
  }

  // ---------- what is passed over ----------

  function SkipBlanks(s: seq<byte>): (r: seq<byte>)
    ensures |r| <= |s| && (r != [] ==> !IsBlank(r[0]))
  {
    if s != [] && IsBlank(s[0]) then SkipBlanks(s[1..]) else s
  }

  /** From behind "<!--": on from the second dash of the next two, or nothing. */
  function CommentEnd(s: seq<byte>): (r: seq<byte>)
    ensures |r| <= |s|
  {
    if s == [] || s == [45] then []
    else if s[0] != 45 then CommentEnd(s[1..])
    else if s[1] == 45 then s[1..]
    else CommentEnd(s[2..])
  }

  /** Behind the first b, or nothing. */
  function Behind(b: byte, s: seq<byte>): (r: seq<byte>)
    ensures |r| <= |s|
  {
    if s == [] then [] else if s[0] == b then s[1..] else Behind(b, s[1..])
  }

  /** Behind the bracket that closes the k open ones, or nothing. */
  function MarkupEnd(s: seq<byte>, k: nat): (r: seq<byte>)
    requires k > 0
    ensures |r| <= |s|
  {
    if s == [] then []
    else if s[0] == 60 then MarkupEnd(s[1..], k + 1)
    else if s[0] == 62 then if k == 1 then s[1..] else MarkupEnd(s[1..], k - 1)
    else MarkupEnd(s[1..], k)
  }

  predicate IsMarkup(b: byte) {
    b in {33, 63, 37}
  }

  /** What follows a declaration, comment, instruction or directive, of which '<' has been read, and
      whether it is in a CDATA section then. */
  function Skipped(s: seq<byte>): (t: (seq<byte>, bool))
    requires s != [] && IsMarkup(s[0])
    ensures |t.0| <= |s|
  {
    if s[0] == 63 then (MarkupEnd(Behind(63, s[1..]), 1), false)
    else if s[0] == 37 then (MarkupEnd(s, 1), false)
    else if |s| > 1 && s[1] == 91 then (Behind(91, s[2..]), true)
    else if |s| > 2 && s[1] == 45 && s[2] == 45 then (MarkupEnd(CommentEnd(s[3..]), 1), false)
    else if |s| > 1 && s[1] == 45 then (MarkupEnd(s[2..], 1), false)
    else (MarkupEnd(s[1..], 1), false)
  }

  /** An XML declaration, of which '<' has been read: it may switch the encoding. */
  predicate IsXmlDeclaration(s: seq<byte>) {
    |s| > 4 && s[0] == 63 && s[1] == 120 && s[2] == 109 && s[3] == 108 && IsBlank(s[4])
  }

  // ---------- one character of content ----------

  /** Where the lexer stands: a code that was pushed back (0 for none, and EOF when the end of the
      input has been met), the bytes to come, and whether they are in a CDATA section. */
  datatype Pos = Pos(peek: int, rest: seq<byte>, cdata: bool) {
    function Size(): nat {
      |rest| + if peek in {0, EOF} then 0 else 1
    }

    /** n bytes further */
    function On(n: nat): Pos
      requires n <= |rest|
    {
      Pos(peek, rest[n..], cdata)
    }
  }

  /** In front of s, outside of a CDATA section. */
  function Plain(s: seq<byte>): Pos {
    Pos(0, s, false)
  }

  /** The first character of element content or of an attribute value, and where the lexer stands
      then.  `End` is the end of the input.  `Unclear` is for an input that ends in "<", in the
      middle of a CDATA section's "]]>" or of a character, and for an XML declaration. */
  datatype Lexeme = Lexeme(c: int, next: Pos) | End | Unclear

  /** The bytes s are to come, with nothing pushed back but perhaps the first of them. */
  function LexFrom(s: seq<byte>, cdata: bool, entities: map<seq<byte>, nat>): (l: Lexeme)
    ensures l.Lexeme? ==> l.next.Size() < |s| && (l.c == SOAP_TT ==> l.next.Size() + 2 <= |s|)
    ensures l.Lexeme? && l.c >= 0x80 ==> l.c < 256 && l.next.peek == 0
    decreases |s|
  {
    if s == [] then End
    else if cdata then
      if s[0] != 93 then Lexeme(s[0], Pos(0, s[1..], true))
      else if |s| > 1 && s[1] != 93 then Lexeme(93, Pos(0, s[1..], true))
      else if |s| < 3 then Unclear
      else if s[2] != 62 then Lexeme(93, Pos(93, s[2..], true))
      else LexFrom(s[3..], false, entities)
    else match s[0]
      case 60 =>
        var r := SkipBlanks(s[1..]);
        if r == [] then Unclear
        else if r[0] == 47 then Lexeme(SOAP_TT, Pos(0, r[1..], false))
        else if !IsMarkup(r[0]) then Lexeme(SOAP_LT, Pos(0, r, false))
        else if IsXmlDeclaration(r) then Unclear
        else LexFrom(Skipped(r).0, Skipped(r).1, entities)
      case 62 => Lexeme(SOAP_GT, Pos(0, s[1..], false))
      case 34 => Lexeme(SOAP_QT, Pos(0, s[1..], false))
      case 39 => Lexeme(SOAP_AP, Pos(0, s[1..], false))
      case 38 =>
        var t := TakeName([], s[1..]);
        Lexeme(Ref(CharValue(CStr(t.name), entities)), Pos(if t.cut then EOF else 0, t.rest, false))
      case b => Lexeme(b, Pos(0, s[1..], false))
  }

  function Lex(p: Pos, entities: map<seq<byte>, nat>): (l: Lexeme)
    ensures l.Lexeme? ==> l.next.Size() < p.Size()
    ensures l.Lexeme? && l.c == SOAP_TT && p.peek != SOAP_TT ==> l.next.Size() + 2 <= p.Size()
    ensures l.Lexeme? && l.c >= 0x80 && p.peek < 256 ==> l.c < 256 && l.next.peek == 0
  {
    if p.peek == 0 then LexFrom(p.rest, p.cdata, entities)
    else if p.peek == EOF then End
    else if 0 < p.peek < 256 then LexFrom([p.peek] + p.rest, p.cdata, entities)
    else Lexeme(p.peek, Pos(0, p.rest, p.cdata))
  }

  // ---------- markup in front of a character does not show ----------

  const COMMENT: seq<byte> := [60, 33, 45, 45]                       // <!--
  const COMMENT_END: seq<byte> := [45, 45, 62]                       // -->
  const INSTRUCTION: seq<byte> := [60, 63]                           // <?
  const INSTRUCTION_END: seq<byte> := [63, 62]                       // ?>
  const SECTION: seq<byte> := [60, 33, 91, 67, 68, 65, 84, 65, 91]   // <![CDATA[
  const SECTION_END: seq<byte> := [93, 93, 62]                       // ]]>

  /** What may stand in a comment (section 2.5 of XML 1.0): no two dashes in a row, and none at the end. */
  predicate IsComment(s: seq<byte>) {
    forall i :: 0 <= i < |s| && s[i] == 45 ==> i + 1 < |s| && s[i + 1] != 45
  }

  lemma {:induction false} CommentEnds(a: seq<byte>, rest: seq<byte>)
    requires IsComment(a)
    ensures CommentEnd(a + (COMMENT_END + rest)) == [45, 62] + rest
    decreases a
  {
    var s := a + (COMMENT_END + rest);
    if a == [] {
      assert s[1..] == [45, 62] + rest;
    } else if a[0] != 45 {
      assert s[1..] == a[1..] + (COMMENT_END + rest);
      CommentEnds(a[1..], rest);
    } else {
      assert s[2..] == a[2..] + (COMMENT_END + rest);
      CommentEnds(a[2..], rest);
    }
  }

  lemma {:induction false} BehindFirst(b: byte, a: seq<byte>, rest: seq<byte>)
    requires b !in a
    ensures Behind(b, a + ([b] + rest)) == rest
    decreases a
  {
    var s := a + ([b] + rest);
    if a == [] {
      assert s[1..] == rest;
    } else {
      assert s[1..] == a[1..] + ([b] + rest);
      BehindFirst(b, a[1..], rest);
    }
  }

  lemma CommentSkipped(a: seq<byte>, rest: seq<byte>, entities: map<seq<byte>, nat>)
    requires IsComment(a)
    ensures Lex(Plain(COMMENT + (a + (COMMENT_END + rest))), entities) == Lex(Plain(rest), entities)
  {
    hide CommentEnd, IsComment, IsXmlDeclaration;
    CommentEnds(a, rest);
    var s := COMMENT + (a + (COMMENT_END + rest));
    var r := [33, 45, 45] + (a + (COMMENT_END + rest));
    assert s[1..] == r && r[3..] == a + (COMMENT_END + rest) && SkipBlanks(r) == r;
    assert ([45, 62] + rest)[1..] == [62] + rest && ([62] + rest)[1..] == rest;
    assert MarkupEnd([45, 62] + rest, 1) == MarkupEnd([62] + rest, 1) == rest;
    assert !IsXmlDeclaration(r) by { NoXmlDeclaration(r); }
  }

  lemma NoXmlDeclaration(r: seq<byte>)
    requires r != [] && r[0] != 63
    ensures !IsXmlDeclaration(r)
  {
  }

  lemma InstructionSkipped(a: seq<byte>, rest: seq<byte>, entities: map<seq<byte>, nat>)
    requires 63 !in a && !(Ascii("xml") < a && a[3] <= 32)
    ensures Lex(Plain(INSTRUCTION + (a + (INSTRUCTION_END + rest))), entities) == Lex(Plain(rest), entities)
  {
    hide Behind;
    BehindFirst(63, a, [62] + rest);
    var s := INSTRUCTION + (a + (INSTRUCTION_END + rest));
    var r := [63] + (a + (INSTRUCTION_END + rest));
    assert s[1..] == r && r[1..] == a + (INSTRUCTION_END + rest) && SkipBlanks(r) == r;
    assert INSTRUCTION_END + rest == [63] + ([62] + rest);
    assert ([62] + rest)[1..] == rest;
  }

  lemma SectionEntered(s: seq<byte>, entities: map<seq<byte>, nat>)
    ensures Lex(Plain(SECTION + s), entities) == Lex(Pos(0, s, true), entities)
  {
    hide Behind;
    var r := [33, 91] + ([67, 68, 65, 84, 65] + ([91] + s));
    assert (SECTION + s)[1..] == r && r[2..] == [67, 68, 65, 84, 65] + ([91] + s) && SkipBlanks(r) == r;
    BehindFirst(91, [67, 68, 65, 84, 65], s);
    NoXmlDeclaration(r);
    assert Skipped(r) == (s, true);
    LexSection(r, entities);
  }

  lemma LexSection(r: seq<byte>, entities: map<seq<byte>, nat>)
    requires r != [] && r[0] == 33
    ensures LexFrom([60] + r, false, entities) == LexFrom(Skipped(r).0, Skipped(r).1, entities)
  {
    hide Skipped;
    assert ([60] + r)[1..] == r && SkipBlanks(r) == r;
  }

  lemma SectionLeft(rest: seq<byte>, entities: map<seq<byte>, nat>)
    ensures Lex(Pos(0, SECTION_END + rest, true), entities) == Lex(Plain(rest), entities)
  {
    assert (SECTION_END + rest)[3..] == rest;
  }

  lemma {:induction false} BlanksSkipped(blanks: seq<byte>, s: seq<byte>)
    requires (forall i :: 0 <= i < |blanks| ==> blanks[i] <= 32) && s != [] && s[0] > 32
    ensures SkipBlanks(blanks + s) == s
    decreases blanks
  {
    if blanks == [] {
      assert blanks + s == s;
    } else {
      assert (blanks + s)[1..] == blanks[1..] + s;
      BlanksSkipped(blanks[1..], s);
    }
  }

  /** The bracket of a start tag, with blanks behind it or not */
  lemma TagOpened(blanks: seq<byte>, s: seq<byte>, entities: map<seq<byte>, nat>)
    requires (forall i :: 0 <= i < |blanks| ==> blanks[i] <= 32) && s != []
    requires s[0] > 32 && s[0] !in {33, 37, 47, 63}
    ensures Lex(Plain([60] + (blanks + s)), entities) == Lexeme(SOAP_LT, Plain(s))
  {
    hide SkipBlanks;
    BlanksSkipped(blanks, s);
    assert ([60] + (blanks + s))[1..] == blanks + s;
  }

  /** The bracket and the slash of an end tag, with blanks between them or not */
  lemma TagClosed(blanks: seq<byte>, rest: seq<byte>, entities: map<seq<byte>, nat>)
    requires forall i :: 0 <= i < |blanks| ==> blanks[i] <= 32
    ensures Lex(Plain([60] + (blanks + ([47] + rest))), entities) == Lexeme(SOAP_TT, Plain(rest))
  {
    hide SkipBlanks;
    BlanksSkipped(blanks, [47] + rest);
    assert ([60] + (blanks + ([47] + rest)))[1..] == blanks + ([47] + rest);
    assert ([47] + rest)[1..] == rest;
  }

  /** No brackets */
  predicate NoBrackets(s: seq<byte>) {
    forall i :: 0 <= i < |s| ==> s[i] !in {60, 62}
  }

  lemma {:induction false} MarkupGoesOn(a: seq<byte>, s: seq<byte>, k: nat)
    requires NoBrackets(a) && k > 0
    ensures MarkupEnd(a + s, k) == MarkupEnd(s, k)
    decreases a
  {
    if a == [] {
      assert a + s == s;
    } else {
      assert (a + s)[0] == a[0] && (a + s)[1..] == a[1..] + s;
      MarkupGoesOn(a[1..], s, k);
    }
  }

  lemma MarkupOpens(s: seq<byte>, k: nat)
    requires k > 0
    ensures MarkupEnd([60] + s, k) == MarkupEnd(s, k + 1)
    ensures MarkupEnd([62] + s, k) == if k == 1 then s else MarkupEnd(s, k - 1)
  {
    assert ([60] + s)[1..] == s && ([62] + s)[1..] == s;
  }

  /** A declaration such as <!DOCTYPE a [ <!ELEMENT b> ]>, with one bracketed part inside */
  lemma DeclarationSkipped(a: seq<byte>, b: seq<byte>, c: seq<byte>, rest: seq<byte>, entities: map<seq<byte>, nat>)
    requires NoBrackets(a) && NoBrackets(b) && NoBrackets(c) && a != [] && a[0] !in {45, 91}
    ensures Lex(Plain([60, 33] + (a + ([60] + (b + ([62] + (c + ([62] + rest))))))), entities)
            == Lex(Plain(rest), entities)
    ensures Lex(Plain([60, 33] + (a + ([62] + rest))), entities) == Lex(Plain(rest), entities)
  {
    hide MarkupEnd;
    var end := [62] + rest;
    var more := [60] + (b + ([62] + (c + end)));
    MarkupGoesOn(a, more, 1);
    MarkupOpens(b + ([62] + (c + end)), 1);
    MarkupGoesOn(b, [62] + (c + end), 2);
    MarkupOpens(c + end, 2);
    MarkupGoesOn(c, end, 1);
    MarkupOpens(rest, 1);
    MarkupGoesOn(a, end, 1);
    DirectiveLex(a + more, entities);
    DirectiveLex(a + end, entities);
  }

  lemma DirectiveLex(s: seq<byte>, entities: map<seq<byte>, nat>)
    requires s != [] && s[0] !in {45, 91}
    ensures Lex(Plain([60, 33] + s), entities) == Lex(Plain(MarkupEnd(s, 1)), entities)
  {
    hide MarkupEnd;
    var r := [33] + s;
    assert ([60, 33] + s)[1..] == r && SkipBlanks(r) == r && r[1..] == s;
    NoXmlDeclaration(r);
    assert Skipped(r) == (MarkupEnd(s, 1), false);
  }

  /** One dash does not begin a comment. */
  lemma DashSkipped(a: seq<byte>, rest: seq<byte>, entities: map<seq<byte>, nat>)
    requires NoBrackets(a) && (a != [] ==> a[0] != 45)
    ensures Lex(Plain([60, 33, 45] + (a + ([62] + rest))), entities) == Lex(Plain(rest), entities)
  {
    hide MarkupEnd;
    var more := a + ([62] + rest);
    var r := [33, 45] + more;
    assert ([60, 33, 45] + more)[1..] == r && SkipBlanks(r) == r && r[2..] == more;
    MarkupGoesOn(a, [62] + rest, 1);
    MarkupOpens(rest, 1);
    NoXmlDeclaration(r);
    assert Skipped(r) == (rest, false);
  }

  /** Only an XML declaration is left open. */
  lemma DeclarationUnclear(b: byte, rest: seq<byte>, entities: map<seq<byte>, nat>)
    requires b <= 32
    ensures Lex(Plain([60] + (Ascii("?xml") + ([b] + rest))), entities) == Unclear
  {
    var r := Ascii("?xml") + ([b] + rest);
    assert ([60] + r)[1..] == r && SkipBlanks(r) == r;
  }

  /** A server-side directive <% ... > */
  lemma PercentSkipped(a: seq<byte>, rest: seq<byte>, entities: map<seq<byte>, nat>)
    requires NoBrackets(a)
    ensures Lex(Plain([60, 37] + (a + ([62] + rest))), entities) == Lex(Plain(rest), entities)
  {
    hide MarkupEnd;
    var r := [37] + (a + ([62] + rest));
    assert ([60, 37] + (a + ([62] + rest)))[1..] == r && SkipBlanks(r) == r;
    assert r == ([37] + a) + ([62] + rest);
    MarkupGoesOn([37] + a, [62] + rest, 1);
    MarkupOpens(rest, 1);
    NoXmlDeclaration(r);
    assert Skipped(r) == (rest, false);
  }

  /** The part of `struct soap` soap_get works on. */
  class Lexer {
    const input: Input
    const entities: map<seq<byte>, nat>
    var cdata: bool          // inside <![CDATA[

    constructor (input: Input, entities: map<seq<byte>, nat>)
      ensures this.input == input && this.entities == entities && !cdata
    {
      this.input, this.entities, cdata := input, entities, false;
    }

    /** The lexer stands at p. */
    ghost predicate At(p: Pos)
      reads this, input, input.buf, input.sock
    {
      && input.Valid()
      && if p.peek == EOF then Ended() else input.ahead == p.peek && input.Rest() == p.rest && cdata == p.cdata
    }

    ghost predicate Ended()
      requires input.Valid()
      reads input, input.buf, input.sock
    {
      input.ahead == EOF || (input.ahead == 0 && input.Rest() == [])
    }

    /** c is the first byte of s, and the others are to come; or s is empty, and c is the end. */
    ghost predicate Before(c: int, s: seq<byte>)
      reads input, input.buf, input.sock
    {
      && input.Valid()
      && if s == [] then c == EOF && Ended() else c == s[0] && input.ahead == 0 && input.Rest() == s[1..]
    }

    /** soap_unget.  Once the end of the input has been met, it would be forgotten. */
    method PushBack(c: int, ghost p: Pos)
      requires At(p) && (p.peek == EOF ==> c == EOF)
      modifies input`ahead
      ensures At(p.(peek := c)) && input.ahead == c
    {
      hide Input.Rest, Input.Valid;
      input.Unget(c);
    }

    /** soap_char: the rest of a character reference */
    method GetCharRef() returns (v: int)
      requires input.Valid() && input.ahead == 0
      modifies input, input.buf, input.sock`input
      ensures var t := TakeName([], old(input.Rest()));
        v == CharValue(CStr(t.name), entities) && At(Pos(if t.cut then EOF else 0, t.rest, cdata))
    {
      hide Input.Rest, Input.Valid, CharValue, CStr;
      var tmp: seq<byte> := [];
      ghost var t := TakeName([], input.Rest());
      while |tmp| < 7
        invariant |tmp| <= 7
        invariant input.Valid() && input.ahead == 0 && t == TakeName(tmp, input.Rest())
      {
        var c := input.Get1();
        if c == 59 || c == EOF {
          v := CharValue(CStr(tmp), entities);
          return;
        }
        tmp := tmp + [c];
      }
      v := CharValue(CStr(tmp), entities);
    }

    /** The loop of soap_get_pi, up to '?', and one character further */
    method SkipInstruction(ghost s: seq<byte>) returns (c: int)
      requires input.Valid() && input.ahead == 0 && input.Rest() == s
      modifies input, input.buf, input.sock`input
      ensures Before(c, Behind(63, s))
    {
      hide Input.Rest, Input.Valid;
      c := input.GetChar();
      ghost var t := s;
      while c != EOF && c != 63
        invariant Before(c, t) && Behind(63, s) == Behind(63, t)
        decreases |t|
      {
        c := input.GetChar();
        t := t[1..];
      }
      if c != EOF {
        c := input.GetChar();
      }
    }

    /** The body of a comment, up to the second dash */
    method SkipComment(ghost s: seq<byte>) returns (c: int)
      requires input.Valid() && input.ahead == 0 && input.Rest() == s
      modifies input, input.buf, input.sock`input
      ensures Before(c, CommentEnd(s))
    {
      hide Input.Rest, Input.Valid;
      c := input.Get1();
      ghost var t := s;
      while c != EOF
        invariant Before(c, t) && CommentEnd(s) == CommentEnd(t)
        decreases |t|
      {
        if c == 45 {
          c := input.Get1();
          if c == 45 {
            return;
          }
          t := t[1..];
        }
        if c != EOF {
          c := input.Get1();
          t := t[1..];
        }
      }
    }

    /** On to the bracket that closes the markup, and one character further */
    method SkipToEnd(c0: int, ghost s: seq<byte>) returns (c: int)
      requires Before(c0, s)
      modifies input, input.buf, input.sock`input
      ensures Before(c, MarkupEnd(s, 1))
    {
      hide Input.Rest, Input.Valid;
      var k := 1;
      c := c0;
      ghost var t := s;
      while c != EOF
        invariant k > 0 && Before(c, t) && MarkupEnd(s, 1) == MarkupEnd(t, k)
        decreases |t|
      {
        if c == 60 {
          k := k + 1;
        } else if c == 62 {
          if k == 1 {
            break;
          }
          k := k - 1;
        }
        c := input.Get1();
        t := t[1..];
      }
      if c != EOF {
        c := input.Get1();
      }
    }

    /** soap_get after '<' and one of '!', '?' and '%': skips the declaration, comment or
        instruction, or enters a CDATA section.  Returns the next character. */
    method SkipMarkup(c0: int, ghost s: seq<byte>) returns (c: int)
      requires Before(c0, s) && s != [] && IsMarkup(s[0]) && !cdata
      modifies this`cdata, input, input.buf, input.sock`input
      ensures Before(c, Skipped(s).0) && (c != EOF ==> cdata == Skipped(s).1)
    {
      hide Input.Rest, Input.Valid, MarkupEnd, CommentEnd, Behind;
      c := c0;
      ghost var t := s;
      if c == 33 {
        c := input.Get1();
        t := s[1..];
        if c == 91 {
          c := SkipToSection(s[2..]);
          return;
        }
        if c == 45 {
          c := input.Get1();
          t := s[2..];
          if c == 45 {
            c := SkipComment(s[3..]);
            t := CommentEnd(s[3..]);
          }
        }
      } else if c == 63 {
        c := SkipInstruction(s[1..]);
        t := Behind(63, s[1..]);
      }
      c := SkipToEnd(c, t);
    }

    /** "<![" is followed by a name and another bracket, and then by the section. */
    method SkipToSection(ghost s: seq<byte>) returns (c: int)
      requires input.Valid() && input.ahead == 0 && input.Rest() == s && !cdata
      modifies this`cdata, input, input.buf, input.sock`input
      ensures Before(c, Behind(91, s)) && (c != EOF ==> cdata)
    {
      hide Input.Rest, Input.Valid;
      c := input.Get1();
      ghost var t := s;
      while c != EOF && c != 91
        invariant Before(c, t) && Behind(91, s) == Behind(91, t)
        decreases |t|
      {
        c := input.Get1();
        t := t[1..];
      }
      if c != EOF {
        cdata := true;
        c := input.Get1();
      }
    }

    /** A ']' in a CDATA section is returned, or it begins the end of the section; then c is the
        character behind the section. */
    method CloseSection(ghost s: seq<byte>) returns (found: bool, c: int)
      requires Before(93, s) && s != [] && cdata
      modifies this`cdata, input, input.buf, input.sock`input
      ensures !found ==> |s| > 2 && s[1] == 93 && s[2] == 62 && !cdata && Before(c, s[3..])
      ensures found ==> c == 93
      ensures found ==> var l := LexFrom(s, true, entities);
        l.Unclear? || (l.Lexeme? && l.c == 93 && At(l.next))
    {
      hide Input.Rest, Input.Valid;
      c := input.Get1();
      if c != 93 {
        input.RevGet1();
        return true, 93;
      }
      c := input.Get0();
      if c != 62 {
        input.Unget(93);
        return true, 93;
      }
      cdata := false;
      c := input.Get1();
      c := input.Get1();
      found := false;
    }

    /** Behind '<': the next character that is not a blank */
    method SkipBlankBytes(ghost s: seq<byte>) returns (c: int)
      requires input.Valid() && input.ahead == 0 && input.Rest() == s
      modifies input, input.buf, input.sock`input
      ensures var r := SkipBlanks(s); Before(c, r) && (r != [] ==> input.Took(c))
    {
      hide Input.Rest, Input.Valid;
      c := input.Get1();
      ghost var t := s;
      while IsBlank(c)
        invariant Before(c, t) && SkipBlanks(s) == SkipBlanks(t)
        invariant t != [] ==> input.Took(c)
        decreases |t|
      {
        c := input.Get1();
        t := t[1..];
      }
    }

    /** A '<' begins a tag, or something that is skipped; then c is the character behind. */
    method OpenTag(ghost s: seq<byte>) returns (found: bool, c: int, ghost t: seq<byte>)
      requires Before(60, s) && s != [] && !cdata
      modifies this`cdata, input, input.buf, input.sock`input
      ensures found ==> var l := LexFrom(s, false, entities);
        c < 0 && (l.Unclear? || (l.Lexeme? && c == l.c && At(l.next)))
      ensures !found ==> var l := LexFrom(s, false, entities);
        Before(c, t) && |t| < |s| && (l.Unclear? || l == LexFrom(t, cdata, entities))
    {
      hide Input.Rest, Input.Valid, CharValue, CStr, TakeName, Skipped, SkipBlanks, IsXmlDeclaration;
      c := SkipBlankBytes(s[1..]);
      t := SkipBlanks(s[1..]);
      if c in {33, 63, 37} {
        c := SkipMarkup(c, t);
        t := Skipped(t).0;
        return false, c, t;
      }
      if c == 47 {
        return true, SOAP_TT, t;
      }
      input.RevGet1();
      return true, SOAP_LT, t;
    }

    /** The loop of soap_get, from a character c0 on: a byte, or a code that was pushed back. */
    method GetFrom(c0: int) returns (c: int)
      requires c0 != EOF && input.Valid() && input.ahead == 0
      modifies this`cdata, input, input.buf, input.sock`input
      ensures c >= 0x80 ==> input.Valid() && input.ahead == 0 && |input.Rest()| <= |old(input.Rest())|
      ensures !(0 <= c0 < 256) ==> c == c0 && At(Pos(0, old(input.Rest()), old(cdata)))
      ensures 0 <= c0 < 256 ==>
        match LexFrom([c0] + old(input.Rest()), old(cdata), entities)
        case Unclear => true
        case End => c == EOF && At(Pos(EOF, [], false))
        case Lexeme(k, next) => c == k && At(next)
    {
      hide Input.Rest, Input.Valid, CharValue, CStr, TakeName, Skipped, SkipBlanks, IsXmlDeclaration;
      ghost var coded := !(0 <= c0 < 256);
      ghost var t: seq<byte> := if coded then [] else [c0] + input.Rest();
      ghost var l := LexFrom(t, cdata, entities);
      ghost var len := |input.Rest()|;
      c := c0;
      while c != EOF
        invariant coded ==>
          c == c0 && input.Valid() && input.ahead == 0 && input.Rest() == old(input.Rest()) && cdata == old(cdata)
        invariant !coded ==> Before(c, t) && |t| <= len + 1 && (l.Unclear? || l == LexFrom(t, cdata, entities))
        decreases |t|
      {
        if cdata {
          if c != 93 {
            return;
          }
          var found;
          found, c := CloseSection(t);
          if found {
            return;
          }
          t := t[3..];
        }
        match c {
          case 60 =>
            var found;
            found, c, t := OpenTag(t);
            if found {
              return;
            }
          case 62 => return SOAP_GT;
          case 34 => return SOAP_QT;
          case 39 => return SOAP_AP;
          case 38 =>
            var v := GetCharRef();
            return Ref(v);
          case _ => return;
        }
      }
    }

    /** soap_get */
    method Get(ghost p: Pos) returns (c: int)
      requires At(p)
      modifies this`cdata, input, input.buf, input.sock`input
      ensures c >= 0x80 ==> input.Valid() && input.ahead == 0 && |input.Rest()| < p.Size()
      ensures match Lex(p, entities)
              case Unclear => true
              case End => c == EOF && At(Pos(EOF, [], false))
              case Lexeme(k, next) => c == k && At(next)
    {
      hide Input.Rest, Input.Valid, LexFrom;
      ghost var rest := input.Rest();
      c := input.ahead;
      if c != 0 {
        if c != EOF {
          input.ahead := 0;
        }
      } else {
        c := input.Get1();
        if c != EOF {
          assert [c] + input.Rest() == rest;
        }
      }
      if c != EOF {
        c := GetFrom(c);
      } else {
        EmptyLex(cdata, entities);
      }
    }
  }

  lemma EmptyLex(cdata: bool, entities: map<seq<byte>, nat>)
    ensures LexFrom([], cdata, entities) == End
  {
  }
}
