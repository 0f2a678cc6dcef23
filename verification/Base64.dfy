/** The base64 codec of XML content; section 6.8 of RFC 2045. */
module Base64 {
  import opened Bytes
  import BlockStore

  const PAD: byte := 61

  // ---------- the code ----------

  type sextet = x: int | 0 <= x < 64

  /** soap_base64o */
  function Letter(v: sextet): byte {
    if v < 26 then 65 + v
    else if v < 52 then 71 + v
    else if v < 62 then v - 4
    else if v == 62 then 43
    else 47
  }

  /** soap_base64i, which begins at '+'; the value 88 marks what is no letter. */
  function Value(c: int): (b: byte)
    requires 43 <= c <= 122
    ensures b < 64 || b == 88
  {
    if c == 43 then 62
    else if c == 47 then 63
    else if 48 <= c <= 57 then c + 4
    else if 65 <= c <= 90 then c - 65
    else if 97 <= c <= 122 then c - 71
    else 88
  }

  lemma LetterValue(v: sextet)
    ensures 43 <= Letter(v) <= 122 && Letter(v) != PAD && Value(Letter(v)) == v
  {
  }

  /** The letters of table 1 of RFC 2045: A to Z, a to z, 0 to 9, plus and slash */
  lemma LetterOf(v: sextet)
    ensures Letter(v) as char ==
      if v < 26 then ('A' as int + v) as char
      else if v < 52 then ('a' as int + v - 26) as char
      else if v < 62 then ('0' as int + v - 52) as char
      else if v == 62 then '+' else '/'
  {
  }

  /** Everything else is no letter. */
  lemma NoLetter(c: int)
    requires 43 <= c <= 122
    ensures Value(c) == 88 <==>
      var l := c as char;
      !('A' <= l <= 'Z' || 'a' <= l <= 'z' || '0' <= l <= '9' || l == '+' || l == '/')
  {
  }

  /** The four letters for 24 bits. */
  function Group(m: nat): (g: seq<byte>)
    ensures |g| == 4
  {
    [Letter(m / 64 / 64 / 64 % 64), Letter(m / 64 / 64 % 64), Letter(m / 64 % 64), Letter(m % 64)]
  }

  function Bits(a: byte, b: byte, c: byte): (m: nat)
    ensures m < 16777216
  {
    a as int * 65536 + b as int * 256 + c as int
  }

  /** The text for a byte string. */
  function Text(s: seq<byte>): (t: seq<byte>)
    ensures |t| == (|s| + 2) / 3 * 4
  {
    if s == [] then []
    else if |s| == 1 then Group(Bits(s[0], 0, 0))[..2] + [PAD, PAD]
    else if |s| == 2 then Group(Bits(s[0], s[1], 0))[..3] + [PAD]
    else
      assert (|s| + 2) / 3 == (|s| - 3 + 2) / 3 + 1;
      Group(Bits(s[0], s[1], s[2])) + Text(s[3..])
  }

  /** The first letter has the upper six bits of the first byte, and so on. */
  lemma GroupBits(a: byte, b: byte, c: byte)
    ensures Group(Bits(a, b, c)) ==
      [Letter(a / 4), Letter(a % 4 * 16 + b / 16), Letter(b % 16 * 4 + c / 64), Letter(c % 64)]
  {
    var m := Bits(a, b, c);
    BitsSplit(a, b, c);
  }

  lemma BitsSplit(a: int, b: int, c: int)
    requires 0 <= a < 256 && 0 <= b < 256 && 0 <= c < 256
    ensures var m := a * 65536 + b * 256 + c;
      && m % 64 == c % 64 && m / 64 % 64 == b % 16 * 4 + c / 64
      && m / 64 / 64 % 64 == a % 4 * 16 + b / 16 && m / 64 / 64 / 64 % 64 == a / 4
  {
    var m := a * 65536 + b * 256 + c;
    assert m == 64 * (a * 1024 + b * 4 + c / 64) + c % 64;
    var m1 := a * 1024 + b * 4 + c / 64;
    assert m / 64 == m1;
    assert m1 == 64 * (a * 16 + b / 16) + (b % 16 * 4 + c / 64);
    var m2 := a * 16 + b / 16;
    assert m1 / 64 == m2;
    assert m2 == 64 * (a / 4) + (a % 4 * 16 + b / 16);
  }

  /** The first three test vectors of section 10 of RFC 4648 */
  lemma TestVectors()
    ensures Text(Ascii("f")) == Ascii("Zg==") && Text(Ascii("fo")) == Ascii("Zm8=")
    ensures Text(Ascii("foo")) == Ascii("Zm9v")
  {
    hide Bits, Group;
    GroupBits(102, 0, 0);
    GroupBits(102, 111, 0);
    GroupBits(102, 111, 111);
    assert Text([]) == [];
    var foo := Ascii("foo");
    assert foo == [102, 111, 111] && foo[3..] == [];
  }

  /** The values of the letters up to the padding or the end of the text; blanks do not count, and
      anything else is an error. */
  function Values(t: seq<byte>): Option<seq<sextet>> {
    if t == [] || t[0] == PAD || t[0] == 0 then Some([])
    else if t[0] <= 32 then Values(t[1..])
    else if t[0] < 43 || t[0] > 122 || Value(t[0]) >= 64 then None
    else
      var rest := Values(t[1..]);
      if rest.None? then None else Some([Value(t[0])] + rest.value)
  }

  /** In a text that goes on up to t[i], which is neither blank nor letter nor padding */
  predicate BadAt(t: seq<byte>, i: nat) {
    && i < |t| && (forall j :: 0 <= j < i ==> t[j] != PAD && t[j] != 0)
    && t[i] > 32 && t[i] != PAD
    && var l := t[i] as char;
      !('A' <= l <= 'Z' || 'a' <= l <= 'z' || '0' <= l <= '9' || l == '+' || l == '/')
  }

  lemma BadShift(t: seq<byte>, i: nat)
    requires i + 1 < |t|
    ensures BadAt(t[1..], i) && t[0] != PAD && t[0] != 0 <==> BadAt(t, i + 1)
  {
    var u := t[1..];
    assert forall j :: 0 < j < |t| ==> t[j] == u[j - 1];
    assert forall j :: 0 <= j < i ==> u[j] == t[j + 1];
  }

  /** There is an error exactly if such a character stands in front of the padding and of the end. */
  lemma {:induction false} ErrorExactly(t: seq<byte>)
    ensures Values(t).None? <==> exists i :: 0 <= i < |t| && BadAt(t, i)
    decreases t
  {
    hide Value;
    if t != [] {
      if 43 <= t[0] <= 122 {
        ValueClass(t[0]);
      }
      ErrorExactly(t[1..]);
      if BadAt(t, 0) {
        assert Values(t).None?;
      }
      forall i | 0 <= i < |t| - 1
        ensures BadAt(t[1..], i) && t[0] != PAD && t[0] != 0 <==> BadAt(t, i + 1)
      {
        BadShift(t, i);
      }
      if i :| 0 <= i < |t| && BadAt(t, i) {
        assert i > 0 ==> BadAt(t[1..], i - 1);
      }
      if i :| 0 <= i < |t| - 1 && BadAt(t[1..], i) {
        assert t[0] != PAD && t[0] != 0 ==> BadAt(t, i + 1);
      }
    }
  }

  lemma ValueClass(c: int)
    requires 43 <= c <= 122
    ensures var l := c as char;
      Value(c) < 64 <==> ('A' <= l <= 'Z' || 'a' <= l <= 'z' || '0' <= l <= '9' || l == '+' || l == '/')
  {
  }

  lemma TextFirst(s: seq<byte>)
    requires |s| > 2
    ensures Text(s) == Group(Bits(s[0], s[1], s[2])) + Text(s[3..])
  {
  }

  function Word(v: seq<sextet>): nat
    requires |v| <= 4
    decreases |v|
  {
    if v == [] then 0 else Word(v[..|v| - 1]) * 64 + v[|v| - 1]
  }

  /** What the letters stand for: three bytes for each four, fewer for an incomplete last group. */
  function Unpack(v: seq<sextet>): (s: seq<byte>)
    ensures |s| == |v| / 4 * 3 + (if |v| % 4 == 2 then 1 else if |v| % 4 == 3 then 2 else 0)
  {
    if |v| < 2 then []
    else if |v| == 2 then [Word(v) / 16 % 256]
    else if |v| == 3 then [Word(v) / 1024 % 256, Word(v) / 4 % 256]
    else Triple(Word(v[..4])) + Unpack(v[4..])
  }

  function Triple(m: nat): (s: seq<byte>)
    ensures |s| == 3
  {
    [m / 65536 % 256, m / 256 % 256, m % 256]
  }

  // ---------- writing ----------

  /** for (i = 4; i > 0; m >>= 6) t[--i] = soap_base64o[m & 0x3F] */
  method PutGroup(t: array<byte>, at: nat, m0: nat)
    requires at + 4 <= t.Length
    modifies t
    ensures t[..at + 4] == old(t[..at]) + Group(m0)
  {
    var i, m := 4, m0;
    while i > 0
      invariant 0 <= i <= 4
      invariant i == 4 ==> m == m0
      invariant i == 3 ==> m == m0 / 64
      invariant i == 2 ==> m == m0 / 64 / 64
      invariant i == 1 ==> m == m0 / 64 / 64 / 64
      invariant t[..at + i] == old(t[..at + i])
      invariant forall q :: i <= q < 4 ==> t[at + q] == Group(m0)[q]
    {
      i := i - 1;
      t[at + i] := Letter(m % 64);
      m := m / 64;
    }
    assert t[..at] == t[..at + 0];
  }

  /** soap_s2base64: the text and a zero after it, in `target` or in new memory.  A null `s` is no text. */
  method S2Base64(s: array?<byte>, n: nat, target: array?<byte>) returns (t: array<byte>)
    requires s != null ==> n <= s.Length && s != target
    requires target != null ==> (n + 2) / 3 * 4 + 1 <= target.Length
    modifies if target == null then {} else {target}
    ensures if target == null then fresh(t) && t.Length == (n + 2) / 3 * 4 + 1 else t == target
    ensures s == null ==> t[0] == 0
    ensures s != null ==> t[..(n + 2) / 3 * 4 + 1] == Text(s[..n]) + [0]
  {
    if target == null {
      t := new byte[(n + 2) / 3 * 4 + 1];
    } else {
      t := target;
    }
    t[0] := 0;
    if s != null {
      PutText(t, s, n);
    }
  }

  method PutText(t: array<byte>, s: array<byte>, n: nat)
    requires n <= s.Length && s != t && (n + 2) / 3 * 4 + 1 <= t.Length
    modifies t
    ensures t[..(n + 2) / 3 * 4 + 1] == Text(s[..n]) + [0]
  {
    hide Text;
    ghost var all := s[..n];
    var k, at := PutGroups(t, s, n);
    t[at] := 0;
    if n > k {
      assert all[k..] == s[k..n];
      PutTail(t, at, s, k, n);
      ghost var last := Text(all[k..]);
      ConcatAssociative(t[..at], last, [0]);
      assert t[..at + 5] == t[..at] + t[at..at + 5];
    } else {
      NoText();
      assert all[k..] == [] && t[..at] + [] == t[..at];
    }
  }

  lemma NoText()
    ensures Text([]) == []
  {
  }

  /** All the groups of three bytes. */
  method PutGroups(t: array<byte>, s: array<byte>, n: nat) returns (k: nat, at: nat)
    requires n <= s.Length && s != t && (n + 2) / 3 * 4 + 1 <= t.Length
    modifies t
    ensures k <= n <= k + 2 && at + (if n == k then 0 else 4) == (n + 2) / 3 * 4
    ensures t[..at] + Text(s[k..n]) == Text(s[..n])
  {
    hide Text, Group, Letter;
    ghost var all := s[..n];
    k, at := 0, 0;
    assert all[0..] == all && t[..0] == [];
    while n - k > 2
      invariant k <= n && k % 3 == 0 && at == k / 3 * 4
      invariant t[..at] + Text(all[k..]) == Text(all)
    {
      ghost var rest := all[k..];
      var m: int := s[k];
      m := m * 256 + s[k + 1];
      m := m * 256 + s[k + 2];
      assert m == Bits(rest[0], rest[1], rest[2]);
      assert rest[3..] == all[k + 3..];
      TextFirst(rest);
      ConcatAssociative(t[..at], Group(m), Text(rest[3..]));
      PutGroup(t, at, m);
      k, at := k + 3, at + 4;
    }
    assert all[k..] == s[k..n];
  }

  /** The last one or two bytes, padded. */
  method PutTail(t: array<byte>, at: nat, s: array<byte>, k: nat, n: nat)
    requires at + 5 <= t.Length && k < n <= s.Length && n - k <= 2 && s != t
    modifies t
    ensures t[..at] == old(t[..at]) && t[at..at + 5] == Text(s[k..n]) + [0]
  {
    hide Text, Group;
    var m: int, i := 0, 0;
    while i < n - k
      invariant i <= n - k
      invariant m == if i == 0 then 0 else if i == 1 then Bits(0, 0, s[k]) else Bits(0, s[k], s[k + 1])
    {
      m := m * 256 + s[k + i];
      i := i + 1;
    }
    while i < 3
      invariant n - k <= i <= 3
      invariant n - k == 1 ==>
        m == if i == 1 then Bits(0, 0, s[k]) else if i == 2 then Bits(0, s[k], 0) else Bits(s[k], 0, 0)
      invariant n - k == 2 ==>
        m == if i == 2 then Bits(0, s[k], s[k + 1]) else Bits(s[k], s[k + 1], 0)
    {
      m := m * 256;
      i := i + 1;
    }
    PutGroup(t, at, m);
    ghost var g := t[at..at + 4];
    assert t[..at] == t[..at + 4][..at] && g == t[..at + 4][at..];
    i := 3;
    while i > n - k
      invariant n - k <= i <= 3
      invariant t[..at] == old(t[..at])
      invariant forall q :: 0 <= q < 4 ==> t[at + q] == if q <= i then g[q] else PAD
    {
      t[at + i] := PAD;
      i := i - 1;
    }
    t[at + 4] := 0;
    TailText(s[k..n], g, t[at..at + 5]);
  }

  /** The letters of an incomplete group, the padding and the final zero */
  lemma TailText(rest: seq<byte>, g: seq<byte>, w: seq<byte>)
    requires |rest| in {1, 2} && |w| == 5 && w[4] == 0
    requires g == Group(if |rest| == 1 then Bits(rest[0], 0, 0) else Bits(rest[0], rest[1], 0))
    requires forall q :: 0 <= q < 4 ==> w[q] == if q <= |rest| then g[q] else PAD
    ensures w == Text(rest) + [0]
  {
    hide Group, Bits;
    if |rest| == 1 {
      assert w == g[..2] + [PAD, PAD] + [0];
    } else {
      assert w == g[..3] + [PAD] + [0];
    }
  }

  // ---------- reading ----------

  /** Values that continue with what the rest of the text has. */
  function Join(v: seq<sextet>, rest: Option<seq<sextet>>): Option<seq<sextet>> {
    if rest.None? then None else Some(v + rest.value)
  }

  lemma JoinTwice(v: seq<sextet>, w: seq<sextet>, rest: Option<seq<sextet>>)
    ensures Join(v, Join(w, rest)) == Join(v + w, rest)
  {
    if rest.Some? {
      ConcatAssociative(v, w, rest.value);
    }
  }

  lemma JoinNone(rest: Option<seq<sextet>>)
    ensures Join([], rest) == rest
  {
    assert rest.Some? ==> [] + rest.value == rest.value;
  }

  lemma JoinEnds(v: seq<sextet>, w: seq<sextet>)
    ensures Join(v, None) == None && Join(v, Some(w)) == Some(v + w)
  {
  }

  lemma UnpackNone()
    ensures Unpack([]) == []
  {
  }

  lemma UnpackFirst(v: seq<sextet>)
    requires |v| >= 4
    ensures Unpack(v) == Triple(Word(v[..4])) + Unpack(v[4..])
  {
  }

  lemma {:induction false} UnpackConcat(v: seq<sextet>, w: seq<sextet>)
    requires |v| % 4 == 0
    ensures Unpack(v + w) == Unpack(v) + Unpack(w)
  {
    hide Word, Triple, Unpack;
    if v == [] {
      UnpackNone();
      assert v + w == w;
    } else {
      UnpackFirst(v);
      UnpackFirst(v + w);
      ConcatAssociative(Triple(Word(v[..4])), Unpack(v[4..]), Unpack(w));
      assert (v + w)[4..] == v[4..] + w && (v + w)[..4] == v[..4];
      UnpackConcat(v[4..], w);
    }
  }

  lemma UnpackLast(w: seq<sextet>, m: nat)
    requires |w| <= 4 && m == Word(w)
    ensures |w| < 2 ==> Unpack(w) == []
    ensures |w| == 2 ==> Unpack(w) == [m / 16 % 256]
    ensures |w| == 3 ==> Unpack(w) == [m / 1024 % 256, m / 4 % 256]
    ensures |w| == 4 ==> Unpack(w) == [m / 65536 % 256, m / 256 % 256, m % 256]
  {
    if |w| == 4 {
      assert w[..4] == w;
    }
  }

  /** *s++ of a string without zeros */
  function CharAt(s: seq<byte>, k: nat): int {
    if k < |s| then SignedChar(s[k]) else 0
  }

  datatype Found = Full | End | Bad

  /** Reads letters until there are four, or the text ends. */
  method NextGroup(s: seq<byte>, k: nat) returns (group: Found, m: nat, j: nat, k': nat, ghost w: seq<sextet>)
    requires 0 !in s && k <= |s|
    ensures group.Bad? <==> Values(s[k..]).None? && !group.Full?
    ensures group.End? ==> j < 4 && Values(s[k..]) == Some(w)
    ensures k + j <= k' <= |s|
    ensures group.Full? ==> j == 4 && Values(s[k..]) == Join(w, Values(s[k'..]))
    ensures !group.Bad? ==> |w| == j && m == Word(w)
  {
    m, j, k', w := 0, 0, k, [];
    ghost var all := Values(s[k..]);
    assert all == Join(w, all) by {
      assert all.Some? ==> [] + all.value == all.value;
    }
    while j < 4
      invariant j == |w| <= 4 && m == Word(w)
      invariant k + j <= k' <= |s|
      invariant all == Join(w, Values(s[k'..]))
      decreases |s| - k'
    {
      var c := CharAt(s, k');
      ghost var rest := s[k'..];
      assert k' < |s| ==> rest[0] == s[k'] && rest[0] in s && rest[1..] == s[k' + 1..];
      if c == PAD || c == 0 {
        assert Values(rest) == Some([]) && w + [] == w;
        group := End;
        return;
      }
      k' := k' + 1;
      if 43 <= c <= 122 {
        var b := Value(c);
        if b >= 64 {
          group := Bad;
          return;
        }
        m := m * 64 + b;
        j := j + 1;
        JoinTwice(w, [b], Values(s[k'..]));
        assert (w + [b])[..|w|] == w;
        w := w + [b];
      } else if !(0 <= c <= 32) {
        group := Bad;
        return;
      }
    }
    group := Full;
  }

  /** The bytes of a whole group. */
  method PutTriple(t: array<byte>, at: nat, m: nat, ghost w: seq<sextet>)
    requires at + 3 <= t.Length && |w| == 4 && m == Word(w)
    modifies t
    ensures t[..at + 3] == old(t[..at]) + Unpack(w)
  {
    hide Word, Unpack;
    UnpackLast(w, m);
    t[at] := m / 65536 % 256;
    t[at + 1] := m / 256 % 256;
    t[at + 2] := m % 256;
  }

  /** The bytes of an incomplete last group of j letters. */
  method PutLast(t: array<byte>, at: nat, m: nat, j: nat, ghost w: seq<sextet>) returns (more: nat)
    requires j > 1 ==> at + 2 <= t.Length
    requires at <= t.Length && |w| == j < 4 && m == Word(w)
    modifies t
    ensures more == |Unpack(w)| && at + more <= t.Length
    ensures t[..at + more] == old(t[..at]) + Unpack(w)
  {
    UnpackLast(w, m);
    hide Word, Unpack;
    more := 0;
    if j == 2 {
      t[at] := m / 16 % 256;
      more := 1;
    } else if j == 3 {
      t[at] := m / 1024 % 256;
      t[at + 1] := m / 4 % 256;
      more := 2;
    }
  }

  datatype Decoded = Data(value: array<byte>, n: nat) | Empty | TypeError

  /** soap_base642s, into new memory: `n` bytes, or an error if there is anything but letters and
      blanks in front of the padding.  No string, or one without a character, is no data. */
  method Base642S(text: Option<seq<byte>>) returns (r: Decoded)
    requires text.Some? ==> 0 !in text.value
    ensures text == None || text == Some([]) ==> r == Empty
    ensures text.Some? && text.value != [] ==>
      match Values(text.value)
      case None => r == TypeError
      case Some(v) =>
        && r.Data? && fresh(r.value) && r.value.Length == (|text.value| + 3) / 4 * 3
        && r.n == |Unpack(v)| <= r.value.Length && r.value[..r.n] == Unpack(v)
  {
    hide Values, Word, Unpack, CharAt, Join;
    if text == None || text.value == [] {
      return Empty;
    }
    UnpackNone();
    var s := text.value;
    var l := (|s| + 3) / 4 * 3;
    var t := new byte[l];
    var n, k, at := 0, 0, 0;
    ghost var v: seq<sextet> := [];
    assert s[0..] == s && t[..0] == [];
    JoinNone(Values(s));
    while true
      invariant k <= |s| && |v| <= k && |v| % 4 == 0
      invariant n == at == |v| / 4 * 3 && l == t.Length - at
      invariant t[..at] == Unpack(v) && Values(s) == Join(v, Values(s[k..]))
      decreases |s| - k
    {
      var i := 0;
      ghost var k0 := k;
      while i < BlockStore.SOAP_BLKLEN
        invariant i <= BlockStore.SOAP_BLKLEN && k0 <= k <= |s| && (i > 0 ==> k0 < k)
        invariant |v| <= k && |v| % 4 == 0
        invariant n + 3 * i == at == |v| / 4 * 3 && l == t.Length - at
        invariant t[..at] == Unpack(v) && Values(s) == Join(v, Values(s[k..]))
        decreases |s| - k
      {
        var group, m, j;
        ghost var w;
        group, m, j, k, w := NextGroup(s, k);
        JoinEnds(v, w);
        if group.Bad? {
          return TypeError;
        }
        UnpackConcat(v, w);
        if group.End? {
          i := i * 3;
          var more := PutLast(t, at, m, j, w);
          i := i + more;
          n := n + i;
          return Data(t, n);
        }
        JoinTwice(v, w, Values(s[k..]));
        v := v + w;
        PutTriple(t, at, m, w);
        at := at + 3;
        assert l >= 3;    // room enough: the loop is not left here
        l := l - 3;
        i := i + 1;
      }
      n := n + 3 * BlockStore.SOAP_BLKLEN;
    }
  }

  // ---------- what comes back ----------

  /** The four values a group is written from. */
  function Sextets(m: nat): (v: seq<sextet>)
    ensures |v| == 4
  {
    [m / 64 / 64 / 64 % 64, m / 64 / 64 % 64, m / 64 % 64, m % 64]
  }

  lemma WordNext(v: seq<sextet>, k: nat)
    requires k < |v| <= 4
    ensures Word(v[..k + 1]) == Word(v[..k]) * 64 + v[k]
  {
    assert v[..k + 1][..k] == v[..k];
  }

  lemma WordOfSextets(m: nat)
    requires m < 16777216
    ensures Word(Sextets(m)) == m
    ensures Word(Sextets(m)[..3]) == m / 64
    ensures Word(Sextets(m)[..2]) == m / 64 / 64
  {
    var v := Sextets(m);
    assert v[..0] == [] && Word([]) == 0;
    WordNext(v, 0);
    WordNext(v, 1);
    WordNext(v, 2);
    WordNext(v, 3);
    assert v[..4] == v;
    hide Word;
  }

  lemma BitsBack(a: byte, b: byte, c: byte)
    ensures var m := Bits(a, b, c); m / 65536 % 256 == a && m / 256 % 256 == b && m % 256 == c
  {
    var m := Bits(a, b, c);
    assert m / 256 == a as int * 256 + b && m / 65536 == a;
  }

  lemma Regroup(m: nat)
    ensures m / 64 / 1024 % 256 == m / 65536 % 256
    ensures m / 64 / 4 % 256 == m / 256 % 256
    ensures m / 64 / 64 / 16 % 256 == m / 65536 % 256
  {
  }

  lemma SextetsBack(a: byte, b: byte, c: byte)
    ensures var m := Bits(a, b, c);
      && Unpack(Sextets(m)) == [a, b, c]
      && Unpack(Sextets(m)[..3]) == [a, b]
      && Unpack(Sextets(m)[..2]) == [a]
  {
    var m := Bits(a, b, c);
    var v := Sextets(m);
    hide Sextets, Bits, Unpack, Word;
    WordOfSextets(m);
    UnpackLast(v, m);
    UnpackLast(v[..3], m / 64);
    UnpackLast(v[..2], m / 64 / 64);
    BitsBack(a, b, c);
    Regroup(m);
  }

  /** Letters are read as their values. */
  lemma {:induction false} LettersRead(v: seq<sextet>, letters: seq<byte>, rest: seq<byte>)
    requires |letters| == |v| && forall i :: 0 <= i < |v| ==> letters[i] == Letter(v[i])
    ensures Values(letters + rest) == Join(v, Values(rest))
  {
    if v == [] {
      assert letters + rest == rest;
      assert Values(rest).Some? ==> [] + Values(rest).value == Values(rest).value;
    } else {
      LetterValue(v[0]);
      var s := letters + rest;
      assert s[1..] == letters[1..] + rest;
      LettersRead(v[1..], letters[1..], rest);
      JoinTwice([v[0]], v[1..], Values(rest));
      assert [v[0]] + v[1..] == v;
    }
  }

  /** Every byte string comes back from its text. */
  lemma {:induction false} TextReadBack(s: seq<byte>)
    ensures Values(Text(s)).Some? && Unpack(Values(Text(s)).value) == s
  {
    hide Sextets, Values, Unpack;
    if s == [] {
      PaddingEnds([]);
      UnpackLast([], 0);
    } else if |s| == 1 {
      var v := Sextets(Bits(s[0], 0, 0))[..2];
      GroupLetters(Bits(s[0], 0, 0));
      LettersRead(v, Group(Bits(s[0], 0, 0))[..2], [PAD, PAD]);
      PaddingEnds([PAD, PAD]);
      SextetsBack(s[0], 0, 0);
      assert v + [] == v;
    } else if |s| == 2 {
      var v := Sextets(Bits(s[0], s[1], 0))[..3];
      GroupLetters(Bits(s[0], s[1], 0));
      LettersRead(v, Group(Bits(s[0], s[1], 0))[..3], [PAD]);
      PaddingEnds([PAD]);
      SextetsBack(s[0], s[1], 0);
      assert v + [] == v;
    } else {
      var m := Bits(s[0], s[1], s[2]);
      TextReadBack(s[3..]);
      GroupLetters(m);
      LettersRead(Sextets(m), Group(m), Text(s[3..]));
      SextetsBack(s[0], s[1], s[2]);
      UnpackConcat(Sextets(m), Values(Text(s[3..])).value);
    }
  }

  lemma PaddingEnds(t: seq<byte>)
    requires t == [] || t[0] == PAD
    ensures Values(t) == Some([])
  {
  }

  lemma GroupLetters(m: nat)
    ensures forall i :: 0 <= i < 4 ==> Group(m)[i] == Letter(Sextets(m)[i])
  {
  }

  /** Blanks put in anywhere in front of the padding change nothing. */
  lemma {:induction false} InsertBlanks(a: seq<byte>, blanks: seq<byte>, b: seq<byte>)
    requires PAD !in a && 0 !in a
    requires forall i :: 0 <= i < |blanks| ==> 0 < blanks[i] <= 32
    ensures Values(a + (blanks + b)) == Values(a + b)
  {
    if a != [] {
      assert (a + (blanks + b))[1..] == a[1..] + (blanks + b) && (a + b)[1..] == a[1..] + b;
      InsertBlanks(a[1..], blanks, b);
    } else if blanks != [] {
      assert a + (blanks + b) == blanks + b && (blanks + b)[1..] == [] + (blanks[1..] + b);
      InsertBlanks([], blanks[1..], b);
    } else {
      assert blanks + b == b;
    }
  }

  /** Encodes bytes and decodes the text again, with blanks put in after its first k characters. */
  method RoundTrip(data: array<byte>, k: nat, blanks: seq<byte>) returns (r: Decoded)
    requires k <= (data.Length + 2) / 3 * 4 && PAD !in Text(data[..])[..k]
    requires forall i :: 0 <= i < |blanks| ==> 0 < blanks[i] <= 32
    ensures data.Length > 0 ==> r.Data? && r.n == data.Length <= r.value.Length && r.value[..r.n] == data[..]
    ensures data.Length == 0 && blanks == [] ==> r == Empty
  {
    ghost var s := data[..];
    assert data[..data.Length] == s;
    var t := S2Base64(data, data.Length, null);
    var text := t[..t.Length - 1];
    assert t[..t.Length] == Text(s) + [0];
    assert text == Text(s);
    TextReadBack(s);
    NoZeros(s);
    assert text == text[..k] + text[k..];
    InsertBlanks(text[..k], blanks, text[k..]);
    r := Base642S(Some(text[..k] + (blanks + text[k..])));
  }

  lemma {:induction false} NoZeros(s: seq<byte>)
    ensures 0 !in Text(s)
  {
    if |s| >= 3 {
      NoZeros(s[3..]);
    }
  }
}
