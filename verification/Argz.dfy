/** Vectors of strings: zero-terminated strings one after the other, edited in place. */
module Argz {
  import opened Bytes

  const EOS: byte := 0

  // ---------- what a vector stands for ----------

  /** The bytes of a list of strings. */
  function Pack(list: seq<seq<byte>>): seq<byte> {
    if list == [] then [] else list[0] + [EOS] + Pack(list[1..])
  }

  predicate Strings(list: seq<seq<byte>>) {
    forall i :: 0 <= i < |list| ==> EOS !in list[i]
  }

  /** The position of the first zero at or after o, or the length. */
  function EndOf(c: seq<byte>, o: nat): (e: nat)
    requires o <= |c|
    ensures o <= e <= |c| && (e < |c| ==> c[e] == EOS)
    decreases |c| - o
  {
    if o == |c| || c[o] == EOS then o else EndOf(c, o + 1)
  }

  /** The list of strings in a vector. */
  function Entries(c: seq<byte>): seq<seq<byte>> {
    if c == [] then []
    else
      var e := EndOf(c, 0);
      if e == |c| then [c] else [c[..e]] + Entries(c[e + 1..])
  }

  lemma {:induction false} PackConcat(a: seq<seq<byte>>, b: seq<seq<byte>>)
    ensures Pack(a + b) == Pack(a) + Pack(b)
  {
    if a == [] {
      assert a + b == b;
    } else {
      assert (a + b)[1..] == a[1..] + b;
      PackConcat(a[1..], b);
      ConcatAssociative(a[0] + [EOS], Pack(a[1..]), Pack(b));
    }
  }

  lemma PackSnoc(a: seq<seq<byte>>, s: seq<byte>)
    ensures Pack(a + [s]) == Pack(a) + (s + [EOS])
  {
    PackConcat(a, [s]);
    assert Pack([s]) == s + [EOS] + Pack([]);
  }

  /** A string in front of a zero ends there. */
  lemma {:induction false} EndOfString(c: seq<byte>, s: seq<byte>, t: seq<byte>, o: nat)
    requires c == s + [EOS] + t && o <= |s| && EOS !in s
    ensures EndOf(c, o) == |s|
    decreases |s| - o
  {
    if o < |s| {
      assert c[o] == s[o] && s[o] in s;
      EndOfString(c, s, t, o + 1);
    }
  }

  lemma {:induction false} EntriesPack(list: seq<seq<byte>>)
    requires Strings(list)
    ensures Entries(Pack(list)) == list
  {
    if list != [] {
      var c := Pack(list);
      EndOfString(c, list[0], Pack(list[1..]), 0);
      assert c[..|list[0]|] == list[0] && c[|list[0]| + 1..] == Pack(list[1..]);
      EntriesPack(list[1..]);
    }
  }

  /** EndOf, in a vector that goes on in front of c. */
  lemma {:induction false} EndOfShift(a: seq<byte>, c: seq<byte>, o: nat)
    requires o <= |c|
    ensures EndOf(a + c, |a| + o) == |a| + EndOf(c, o)
    decreases |c| - o
  {
    if o < |c| && c[o] != EOS {
      EndOfShift(a, c, o + 1);
    }
  }

  /** Where the string number k begins. */
  function Offset(list: seq<seq<byte>>, k: nat): nat
    requires k <= |list|
  {
    |Pack(list[..k])|
  }

  /** The strings before and after a place in the list lie before and after a place in the vector. */
  lemma PackAt(list: seq<seq<byte>>, k: nat)
    requires k <= |list|
    ensures Offset(list, k) <= |Pack(list)|
    ensures Pack(list)[..Offset(list, k)] == Pack(list[..k]) && Pack(list)[Offset(list, k)..] == Pack(list[k..])
  {
    assert list == list[..k] + list[k..];
    PackConcat(list[..k], list[k..]);
  }

  lemma PackFirst(list: seq<seq<byte>>)
    requires list != []
    ensures Pack(list) == list[0] + [EOS] + Pack(list[1..])
  {
  }

  lemma NextOffset(list: seq<seq<byte>>, k: nat)
    requires k < |list|
    ensures Offset(list, k + 1) == Offset(list, k) + |list[k]| + 1 <= |Pack(list)|
  {
    hide Pack;
    PackAt(list, k + 1);
    PackSnoc(list[..k], list[k]);
    assert list[..k + 1] == list[..k] + [list[k]];
  }

  /** The string number k in its place */
  lemma EntryAt(list: seq<seq<byte>>, k: nat)
    requires k < |list| && Strings(list)
    ensures Offset(list, k + 1) == Offset(list, k) + |list[k]| + 1 <= |Pack(list)|
    ensures EndOf(Pack(list), Offset(list, k)) == Offset(list, k) + |list[k]|
    ensures Pack(list)[Offset(list, k)..Offset(list, k) + |list[k]|] == list[k]
  {
    hide Pack, EndOf;
    NextOffset(list, k);
    var c, o, rest := Pack(list), Offset(list, k), Pack(list[k..]);
    PackAt(list, k);
    PackFirst(list[k..]);
    assert list[k..][1..] == list[k + 1..];
    EndOfString(rest, list[k], Pack(list[k + 1..]), 0);
    assert c == Pack(list[..k]) + rest;
    EndOfShift(Pack(list[..k]), rest, 0);
    StringFirst(c, o, rest, list[k], Pack(list[k + 1..]));
  }

  lemma StringFirst(c: seq<byte>, o: nat, rest: seq<byte>, s: seq<byte>, t: seq<byte>)
    requires o <= |c| && c[o..] == rest == s + [EOS] + t
    ensures o + |s| <= |c| && c[o..o + |s|] == s
  {
    assert c[o..][..|s|] == c[o..o + |s|];
  }

  // ---------- splitting and joining ----------

  function RunLength(s: seq<byte>, d: byte): (n: nat)
    ensures n <= |s| && d !in s[..n] && (n < |s| ==> s[n] == d)
  {
    if s == [] || s[0] == d then 0
    else
      var n := RunLength(s[1..], d);
      assert s[..n + 1] == [s[0]] + s[1..][..n];
      n + 1
  }

  /** The non-empty pieces between delimiters. */
  function Words(s: seq<byte>, d: byte): seq<seq<byte>> {
    if s == [] then []
    else if s[0] == d then Words(s[1..], d)
    else [s[..RunLength(s, d)]] + Words(s[RunLength(s, d)..], d)
  }

  /** A delimiter in front is passed over, and a word goes up to the next delimiter. */
  lemma WordsFirst(w: seq<byte>, s: seq<byte>, d: byte)
    requires w != [] && d !in w
    ensures Words([d] + s, d) == Words(s, d)
    ensures Words(w, d) == [w] && Words(w + ([d] + s), d) == [w] + Words(s, d)
  {
    assert ([d] + s)[1..] == s;
    RunIs(w, [], d);
    assert w + [] == w && w[|w|..] == [];
    var all := w + ([d] + s);
    RunIs(w, [d] + s, d);
    assert all[..|w|] == w && all[|w|..] == [d] + s && all[0] == w[0] && w[0] in w;
  }

  lemma {:induction false} RunIs(w: seq<byte>, s: seq<byte>, d: byte)
    requires d !in w && (s == [] || s[0] == d)
    ensures RunLength(w + s, d) == |w|
    decreases w
  {
    if w == [] {
      assert w + s == s;
    } else {
      assert (w + s)[0] == w[0] && w[0] in w && (w + s)[1..] == w[1..] + s;
      RunIs(w[1..], s, d);
    }
  }

  /** What a string is split into: its words, and an empty string if there is no text after the last
      delimiter. */
  function Pieces(s: seq<byte>, d: byte): seq<seq<byte>> {
    Words(s, d) + if s == [] || s[|s| - 1] == d then [[]] else []
  }

  /** The strings with a delimiter between each two. */
  function Glue(list: seq<seq<byte>>, d: byte): seq<byte> {
    if list == [] then []
    else if |list| == 1 then list[0]
    else list[0] + [d] + Glue(list[1..], d)
  }

  predicate AreWords(list: seq<seq<byte>>, d: byte) {
    forall i :: 0 <= i < |list| ==> list[i] != [] && d !in list[i]
  }

  lemma {:induction false} WordsAreWords(s: seq<byte>, d: byte)
    ensures AreWords(Words(s, d), d)
  {
    if s != [] {
      WordsAreWords(if s[0] == d then s[1..] else s[RunLength(s, d)..], d);
    }
  }

  lemma {:induction false} WordsAreStrings(s: seq<byte>, d: byte)
    requires EOS !in s
    ensures Strings(Words(s, d))
  {
    if s != [] {
      WordsAreStrings(if s[0] == d then s[1..] else s[RunLength(s, d)..], d);
    }
  }

  /** A word in front of the end or of a delimiter. */
  lemma {:induction false} WordFirst(w: seq<byte>, t: seq<byte>, d: byte)
    requires d !in w && (t == [] || t[0] == d)
    ensures RunLength(w + t, d) == |w|
    ensures w != [] ==> Words(w + t, d) == [w] + Words(t, d)
  {
    var s := w + t;
    if w == [] {
      assert s == t;
    } else {
      assert s[0] == w[0] && w[0] in w && s[1..] == w[1..] + t;
      WordFirst(w[1..], t, d);
      assert s[..|w|] == w && s[|w|..] == t;
    }
  }

  /** The same of a single word */
  lemma OneWordSnoc(w: seq<byte>, c: byte, d: byte)
    requires w != [] && d !in w
    ensures Words(w, d) == [w]
    ensures Words(w + [c], d) == if c == d then [w] else [w + [c]]
  {
    assert w + [] == w;
    WordFirst(w, [], d);
    if c == d {
      assert [c][1..] == [];
      WordFirst(w, [c], d);
    } else {
      assert w + [c] + [] == w + [c];
      WordFirst(w + [c], [], d);
    }
  }

  /** One more byte: a delimiter adds nothing to the words; any other byte begins a word or goes on
      with the last one. */
  lemma {:induction false} WordsSnoc(s: seq<byte>, c: byte, d: byte)
    ensures c == d ==> Words(s + [c], d) == Words(s, d)
    ensures c != d && (s == [] || s[|s| - 1] == d) ==> Words(s + [c], d) == Words(s, d) + [[c]]
    ensures c != d && s != [] && s[|s| - 1] != d ==>
      var n := |Words(s, d)|;
      n > 0 && Words(s + [c], d) == Words(s, d)[..n - 1] + [Words(s, d)[n - 1] + [c]]
  {
    if s == [] {
      assert s + [c] == [c];
      if c != d {
        WordFirst([c], [], d);
        assert [c] + [] == [c];
      }
    } else if s[0] == d {
      assert (s + [c])[1..] == s[1..] + [c];
      WordsSnoc(s[1..], c, d);
    } else {
      var n := RunLength(s, d);
      if s[n..] == [] {
        OneWordSnoc(s, c, d);
      } else {
        WordsSnoc(s[n..], c, d);
        WordThenSnoc(s[..n], s[n..], c, d);
        assert s == s[..n] + s[n..];
      }
    }
  }

  lemma WordThenSnoc(w: seq<byte>, t: seq<byte>, c: byte, d: byte)
    requires w != [] && d !in w && t != [] && t[0] == d
    ensures Words(w + t, d) == [w] + Words(t, d) && Words(w + t + [c], d) == [w] + Words(t + [c], d)
  {
    hide Words;
    WordFirst(w, t, d);
    WordFirst(w, t + [c], d);
    assert w + (t + [c]) == w + t + [c];
  }

  /** The bytes the splitting loop has written for the part s of the string. */
  ghost function Marked(s: seq<byte>, d: byte): (m: seq<byte>)
    ensures |m| <= |s|
  {
    if s == [] then []
    else
      var m, c := Marked(s[..|s| - 1], d), s[|s| - 1];
      if c != d then m + [c] else if m != [] && m[|m| - 1] != EOS then m + [EOS] else m
  }

  lemma MarkedNone(d: byte)
    ensures Marked([], d) == []
  {
  }

  lemma MarkedNext(s: seq<byte>, p: nat, d: byte)
    requires p < |s|
    ensures var m := Marked(s[..p], d);
      Marked(s[..p + 1], d) ==
        if s[p] != d then m + [s[p]] else if m != [] && m[|m| - 1] != EOS then m + [EOS] else m
  {
    PrefixNext(s, p);
  }

  /** A delimiter, or nothing, is in front of what follows s. */
  predicate AtBreak(s: seq<byte>, d: byte) {
    s == [] || s[|s| - 1] == d
  }

  lemma PackEnds(list: seq<seq<byte>>)
    ensures list != [] ==> Pack(list) != [] && Pack(list)[|Pack(list)| - 1] == EOS
  {
    if list != [] {
      PackSnoc(list[..|list| - 1], list[|list| - 1]);
      assert list == list[..|list| - 1] + [list[|list| - 1]];
    }
  }

  lemma OpenWord(m: seq<byte>, p: seq<byte>, w: seq<byte>)
    requires m + [EOS] == p + (w + [EOS])
    ensures m == p + w
  {
    assert m == (m + [EOS])[..|m|] == (p + (w + [EOS]))[..|m|];
  }

  /** What is written last for a byte that is not a delimiter is this byte. */
  lemma OpenEnds(s: seq<byte>, d: byte)
    requires EOS !in s && !AtBreak(s, d)
    ensures Marked(s, d) != [] && Marked(s, d)[|Marked(s, d)| - 1] != EOS
  {
  }

  /** The bytes written are the words, the last one still open if the string may go on with it. */
  lemma {:induction false} MarkedWords(s: seq<byte>, d: byte)
    requires EOS !in s
    ensures AtBreak(s, d) ==> Marked(s, d) == Pack(Words(s, d))
    ensures !AtBreak(s, d) ==> Marked(s, d) + [EOS] == Pack(Words(s, d)) && Words(s, d) != []
  {
    if s != [] {
      var f, c := s[..|s| - 1], s[|s| - 1];
      var m, list := Marked(f, d), Words(f, d);
      assert s == f + [c];
      MarkedWords(f, d);
      WordsSnoc(f, c, d);
      hide Words, Pack;
      if c != d && AtBreak(f, d) {
        PackSnoc(list, [c]);
        ConcatAssociative(m, [c], [EOS]);
      } else if c != d {
        var front, last := list[..|list| - 1], list[|list| - 1];
        assert list == front + [last];
        PackSnoc(front, last);
        PackSnoc(front, last + [c]);
        OpenWord(m, Pack(front), last);
        assert m + [c] + [EOS] == Pack(front) + (last + [c] + [EOS]);
      } else {
        PackEnds(list);
        if !AtBreak(f, d) {
          OpenEnds(f, d);
        }
      }
    }
  }

  /** What the splitting loop leaves, closed with a zero, are the pieces. */
  lemma MarkedPieces(s: seq<byte>, d: byte)
    requires EOS !in s
    ensures Marked(s, d) + [EOS] == Pack(Pieces(s, d))
  {
    MarkedWords(s, d);
    if AtBreak(s, d) {
      PackSnoc(Words(s, d), []);
      assert [] + [EOS] == [EOS];
    } else {
      assert Pieces(s, d) == Words(s, d) + [] == Words(s, d);
    }
  }

  // ---------- the vector ----------

  /** What strcmp finds: the order of two strings by their bytes, -1, 0 or 1. */
  function Compare(a: seq<byte>, b: seq<byte>): int {
    if a == [] then (if b == [] then 0 else -1)
    else if b == [] then 1
    else if a[0] != b[0] then (if a[0] < b[0] then -1 else 1)
    else Compare(a[1..], b[1..])
  }

  /** The first string is before the second exactly if it is a proper prefix, or has a smaller byte at
      the first place where they differ. */
  lemma {:induction false} CompareLess(a: seq<byte>, b: seq<byte>)
    ensures Compare(a, b) < 0 <==>
      exists k :: 0 <= k <= |a| && k < |b| && a[..k] == b[..k] && (k == |a| || a[k] < b[k])
    decreases a
  {
    if a == [] {
      assert b != [] ==> a[..0] == b[..0];
    } else if b != [] && a[0] == b[0] {
      CompareLess(a[1..], b[1..]);
      if k :| 0 <= k <= |a[1..]| && k < |b[1..]| && a[1..][..k] == b[1..][..k] &&
              (k == |a[1..]| || a[1..][k] < b[1..][k]) {
        assert a[..k + 1] == [a[0]] + a[1..][..k] && b[..k + 1] == [b[0]] + b[1..][..k];
      }
      if k :| 0 <= k <= |a| && k < |b| && a[..k] == b[..k] && (k == |a| || a[k] < b[k]) {
        assert a[1..][..k - 1] == a[..k][1..] && b[1..][..k - 1] == b[..k][1..];
      }
    } else if b != [] {
      assert a[..0] == b[..0];
      forall k | 0 <= k <= |a| && k < |b|
        ensures a[..k] == b[..k] ==> k == 0
      {
        SameHeads(a, b, k);
      }
    }
  }

  lemma SameHeads(a: seq<byte>, b: seq<byte>, k: nat)
    requires k <= |a| && k <= |b|
    ensures k > 0 && a[..k] == b[..k] ==> a[0] == b[0]
  {
    assert k > 0 ==> a[..k][0] == a[0] && b[..k][0] == b[0];
  }

  /** realloc */
  method Realloc(a: array?<byte>, n: nat) returns (r: array<byte>)
    ensures fresh(r) && r.Length == n
    ensures a != null ==> r[..Min(a.Length, n)] == a[..Min(a.Length, n)]
  {
    r := new byte[n];
    if a != null {
      CopyInto(r, 0, a[..Min(a.Length, n)]);
    }
  }

  /** Moves a[o..len] up and copies s into the gap: memmove and memcpy. */
  method MakeRoom(a: array<byte>, o: nat, len: nat, s: seq<byte>)
    requires o <= len && len + |s| == a.Length
    modifies a
    ensures a[..] == old(a[..o]) + s + old(a[o..len])
  {
    CopyInto(a, o + |s|, a[o..len]);
    assert a[..o] == a[..o + |s|][..o];
    ghost var tail := a[o + |s|..];
    assert tail == a[o + |s|..a.Length];
    CopyInto(a, o, s);
    assert a[..] == a[..o] + a[o..o + |s|] + a[o + |s|..];
  }

  /** A string vector: char *argz, size_t argz_len */
  class Vector {
    var argz: array?<byte>
    var len: nat

    predicate Valid()
      reads this
    {
      if argz == null then len == 0 else 0 < len <= argz.Length
    }

    function Contents(): seq<byte>
      requires Valid()
      reads this, argz
    {
      if argz == null then [] else argz[..len]
    }

    constructor ()
      ensures Valid() && Contents() == []
    {
      argz, len := null, 0;
    }

    /** argz_append */
    method Append(buf: seq<byte>)
      requires Valid()
      modifies this
      ensures Valid() && Contents() == old(Contents()) + buf
    {
      if |buf| == 0 {
        return;
      }
      ghost var c := Contents();
      var a := Realloc(argz, len + |buf|);
      assert a[..len] == c by {
        if argz != null {
          var m := Min(argz.Length, len + |buf|);
          assert a[..m][..len] == argz[..m][..len] == argz[..len];
        }
      }
      CopyInto(a, len, buf);
      argz, len := a, len + |buf|;
      assert argz[..len] == argz[..len - |buf|] + argz[len - |buf|..len];
    }

    /** argz_create_sep */
    method CreateSep(str: seq<byte>, delim: byte)
      requires EOS !in str
      modifies this
      ensures Valid() && Contents() == Pack(Pieces(str, delim)) && fresh(argz)
    {
      hide Words, Pieces, Pack, Marked;
      var size := 1 + |str|;
      var a := new byte[size];
      var p, q := 0, 0;
      MarkedNone(delim);
      while p < |str|
        invariant q <= p <= |str| && size == 1 + |str| - (p - q)
        invariant a[..q] == Marked(str[..p], delim)
      {
        MarkedNext(str, p, delim);
        ghost var m := a[..q];
        assert q > 0 ==> a[..q][q - 1] == a[q - 1];
        if str[p] == delim {
          if q > 0 && a[q - 1] != EOS {
            a[q] := EOS;
            q := q + 1;
            assert a[..q] == m + [EOS];
          } else {
            size := size - 1;
          }
        } else {
          a[q] := str[p];
          q := q + 1;
          assert a[..q] == m + [str[p]];
        }
        p := p + 1;
      }
      assert str[..p] == str;
      a[q] := EOS;
      assert a[..q + 1] == a[..q] + [EOS];
      MarkedPieces(str, delim);
      argz, len := a, size;
    }

    /** argz_insert: in front of the string that offset `before` is in, or at the end. */
    method Insert(before: Option<nat>, entry: seq<byte>)
      requires Valid() && entry != [] && EOS !in entry
      requires before.Some? ==> argz != null && before.value < len
      modifies this
      ensures Valid()
      ensures before == None ==> Contents() == old(Contents()) + (entry + [EOS])
      ensures before.Some? ==>
        var c, o := old(Contents()), StartOf(old(Contents()), before.value);
        Contents() == c[..o] + (entry + [EOS]) + c[o..]
    {
      if before == None {
        Append(entry + [EOS]);
        return;
      }
      ghost var c := Contents();
      var o := before.value;
      while o > 0 && argz[o - 1] != EOS
        invariant 0 <= o < len && StartOf(c, o) == StartOf(c, before.value)
      {
        o := o - 1;
      }
      var n := 1 + |entry|;
      var a := Realloc(argz, len + n);
      var m := Min(argz.Length, len + n);
      assert a[..len] == c by {
        assert a[..m][..len] == argz[..m][..len] == argz[..len];
      }
      assert c[..o] == a[..len][..o] == a[..o] && c[o..] == a[..len][o..] == a[o..len];
      MakeRoom(a, o, len, entry + [EOS]);
      argz, len := a, len + n;
    }

    /** argz_next: where the string after the one at `entry` begins; for no entry, the first one. */
    method Next(entry: Option<nat>) returns (next: Option<nat>)
      requires Valid()
      requires entry.Some? ==> entry.value < len && EndOf(Contents(), entry.value) < len
      ensures entry == None ==> next == if len > 0 then Some(0) else None
      ensures entry.Some? ==>
        var e := EndOf(Contents(), entry.value);
        next == if e + 1 < len then Some(e + 1) else None
    {
      if entry == None {
        return if len > 0 then Some(0) else None;
      }
      var e := entry.value;
      while argz[e] != EOS
        invariant entry.value <= e <= EndOf(Contents(), entry.value)
        invariant EndOf(Contents(), e) == EndOf(Contents(), entry.value)
        decreases len - e
      {
        e := e + 1;
      }
      e := e + 1;
      next := if e >= len then None else Some(e);
    }
  }

  /** The first position of the string that position o is in. */
  function StartOf(c: seq<byte>, o: nat): (s: nat)
    requires o < |c|
    ensures s <= o
  {
    if o == 0 || c[o - 1] == EOS then o else StartOf(c, o - 1)
  }

  /** Any place in a string, its zero included, belongs to this string. */
  lemma {:induction false} StartAt(list: seq<seq<byte>>, k: nat, j: nat)
    requires k < |list| && Strings(list) && j <= |list[k]|
    ensures Offset(list, k) + j < |Pack(list)|
    ensures StartOf(Pack(list), Offset(list, k) + j) == Offset(list, k)
  {
    var c, o := Pack(list), Offset(list, k);
    EntryAt(list, k);
    if j == 0 {
      PackEnds(list[..k]);
      PackAt(list, k);
      assert o > 0 ==> c[..o][o - 1] == c[o - 1];
    } else {
      assert c[o..o + |list[k]|][j - 1] == c[o + j - 1] && list[k][j - 1] in list[k];
      StartAt(list, k, j - 1);
    }
  }

  /** Bytes put in where a string begins are a string put in there. */
  lemma InsertEntry(list: seq<seq<byte>>, k: nat, entry: seq<byte>)
    requires k <= |list|
    ensures Offset(list, k) <= |Pack(list)|
    ensures Pack(list[..k] + [entry] + list[k..])
         == Pack(list)[..Offset(list, k)] + (entry + [EOS]) + Pack(list)[Offset(list, k)..]
  {
    PackAt(list, k);
    PackConcat(list[..k] + [entry], list[k..]);
    PackSnoc(list[..k], entry);
  }

  // ---------- insertion in order ----------

  /** The list with `entry` in front of the first string that is greater, unless an equal one is met before. */
  function Inserted(list: seq<seq<byte>>, entry: seq<byte>): seq<seq<byte>> {
    if list == [] then [entry]
    else
      var cmp := Compare(entry, list[0]);
      if cmp < 0 then [entry] + list else if cmp == 0 then list else [list[0]] + Inserted(list[1..], entry)
  }

  lemma InsertedFirst(list: seq<seq<byte>>, entry: seq<byte>)
    ensures list == [] ==> Inserted(list, entry) == [entry]
    ensures list != [] && Compare(entry, list[0]) < 0 ==> Inserted(list, entry) == [entry] + list
    ensures list != [] && Compare(entry, list[0]) == 0 ==> Inserted(list, entry) == list
    ensures list != [] && Compare(entry, list[0]) > 0 ==>
      Inserted(list, entry) == [list[0]] + Inserted(list[1..], entry)
  {
  }

  /** lt_argz_insertinorder */
  method InsertInOrder(v: Vector, entry: seq<byte>, ghost list: seq<seq<byte>>)
    requires v.Valid() && v.Contents() == Pack(list) && Strings(list)
    requires entry != [] && EOS !in entry
    modifies v
    ensures v.Valid() && v.Contents() == Pack(Inserted(list, entry))
  {
    hide Pack, EndOf, StartOf, Inserted, Compare;
    ghost var k := 0;
    EmptyPack(list);
    var before := v.Next(None);
    assert list[..0] + Inserted(list[0..], entry) == Inserted(list, entry);
    while before.Some?
      invariant before == if k < |list| then Some(Offset(list, k)) else None
      invariant k <= |list| && Inserted(list, entry) == list[..k] + Inserted(list[k..], entry)
      invariant v.Valid() && v.Contents() == Pack(list)
      decreases |list| - k
    {
      var here := StringAt(v, before.value, list, k);
      var cmp := Compare(entry, here);
      InsertedFirst(list[k..], entry);
      assert list[k..][0] == list[k] && list[k..][1..] == list[k + 1..];
      if cmp < 0 {
        break;
      }
      if cmp == 0 {
        assert list[..k] + list[k..] == list;
        return;
      }
      PrefixNext(list, k);
      ConcatAssociative(list[..k], [list[k]], Inserted(list[k + 1..], entry));
      before := NextAt(v, before.value, list, k);
      k := k + 1;
    }
    InsertedFirst(list[k..], entry);
    ConcatAssociative(list[..k], [entry], list[k..]);
    InsertEntry(list, k, entry);
    if before.Some? {
      StartAt(list, k, 0);
      v.Insert(before, entry);
    } else {
      assert list[..k] == list && list[k..] == [] && list + [entry] + [] == list + [entry];
      PackSnoc(list, entry);
      v.Append(entry + [EOS]);
    }
  }

  /** The string that a pointer into the vector points to */
  method StringAt(v: Vector, o: nat, ghost list: seq<seq<byte>>, ghost k: nat) returns (s: seq<byte>)
    requires v.Valid() && v.Contents() == Pack(list) && Strings(list) && k < |list| && o == Offset(list, k)
    ensures s == list[k]
  {
    hide Pack, EndOf;
    EntryAt(list, k);
    var e := End(v, o);
    s := v.argz[o..e];
    assert s == v.Contents()[o..e];
  }

  /** argz_next, from the string number k */
  method NextAt(v: Vector, o: nat, ghost list: seq<seq<byte>>, ghost k: nat) returns (next: Option<nat>)
    requires v.Valid() && v.Contents() == Pack(list) && Strings(list) && k < |list| && o == Offset(list, k)
    ensures next == if k + 1 < |list| then Some(Offset(list, k + 1)) else None
  {
    hide Pack, EndOf;
    EntryAt(list, k);
    next := v.Next(Some(o));
    NotLast(list, k + 1);
  }

  /** Where the string that begins at o ends. */
  method End(v: Vector, o: nat) returns (e: nat)
    requires v.Valid() && o < v.len
    ensures e == EndOf(v.Contents(), o)
  {
    e := o;
    while e < v.len && v.argz[e] != EOS
      invariant o <= e <= v.len && EndOf(v.Contents(), e) == EndOf(v.Contents(), o)
      decreases v.len - e
    {
      e := e + 1;
    }
  }

  lemma EmptyPack(list: seq<seq<byte>>)
    ensures Pack(list) == [] <==> list == []
    ensures Offset(list, 0) == 0
  {
    PackEnds(list);
  }

  lemma NotLast(list: seq<seq<byte>>, k: nat)
    requires k <= |list|
    ensures Offset(list, k) < |Pack(list)| <==> k < |list|
  {
    PackAt(list, k);
    PackEnds(list[k..]);
  }

  lemma {:induction false} CompareEqual(a: seq<byte>, b: seq<byte>)
    ensures Compare(a, b) == 0 <==> a == b
    ensures Compare(a, b) == -Compare(b, a)
  {
    if a != [] && b != [] && a[0] == b[0] {
      CompareEqual(a[1..], b[1..]);
      assert a == [a[0]] + a[1..] && b == [b[0]] + b[1..];
    }
  }

  lemma {:induction false} CompareTransitive(a: seq<byte>, b: seq<byte>, c: seq<byte>)
    requires Compare(a, b) < 0 && Compare(b, c) < 0
    ensures Compare(a, c) < 0
  {
    if a != [] && a[0] == b[0] == c[0] {
      CompareTransitive(a[1..], b[1..], c[1..]);
    }
  }

  predicate Ascending(list: seq<seq<byte>>) {
    forall i, j :: 0 <= i < j < |list| ==> Compare(list[i], list[j]) < 0
  }

  /** Insertion into an ascending list keeps it ascending, and adds the entry to the set of strings. */
  lemma {:induction false} InsertedAscending(list: seq<seq<byte>>, entry: seq<byte>)
    requires Ascending(list)
    ensures Ascending(Inserted(list, entry))
    ensures forall s :: s in Inserted(list, entry) <==> s in list || s == entry
    ensures entry in list ==> Inserted(list, entry) == list
  {
    hide Compare;
    if list == [] {
      assert forall s :: s in [entry] <==> s == entry;
    } else {
      CompareEqual(entry, list[0]);
      var cmp := Compare(entry, list[0]);
      var r := Inserted(list, entry);
      if cmp < 0 {
        forall j | 0 <= j < |list|
          ensures Compare(entry, list[j]) < 0
        {
          if j > 0 {
            CompareTransitive(entry, list[0], list[j]);
          }
        }
        if entry in list {
          var j :| 0 <= j < |list| && list[j] == entry;
          CompareEqual(entry, list[j]);
        }
      } else if cmp > 0 {
        InsertedAscending(list[1..], entry);
        assert list == [list[0]] + list[1..];
        forall j | 1 <= j < |r|
          ensures Compare(list[0], r[j]) < 0
        {
          assert r[j] == Inserted(list[1..], entry)[j - 1];
          assert r[j] in list[1..] || r[j] == entry;
        }
      }
    }
  }

  function AllInserted(entries: seq<seq<byte>>): seq<seq<byte>> {
    if entries == [] then [] else Inserted(AllInserted(entries[..|entries| - 1]), entries[|entries| - 1])
  }

  /** Any run of insertions leaves the inserted strings, each once, in ascending order. */
  lemma {:induction false} AllInsertedSorted(entries: seq<seq<byte>>)
    ensures Ascending(AllInserted(entries))
    ensures forall s :: s in AllInserted(entries) <==> s in entries
  {
    if entries != [] {
      var front, last := entries[..|entries| - 1], entries[|entries| - 1];
      AllInsertedSorted(front);
      InsertedAscending(AllInserted(front), last);
      assert entries == front + [last];
    }
  }

  /** There is only one ascending list of a set of strings. */
  lemma {:induction false} AscendingUnique(a: seq<seq<byte>>, b: seq<seq<byte>>)
    requires Ascending(a) && Ascending(b) && forall s :: s in a <==> s in b
    ensures a == b
  {
    if |a| > 0 {
      assert a[0] in b && b[0] in a;
      CompareEqual(a[0], b[0]);
      forall s
        ensures s in a[1..] <==> s in b[1..]
      {
        RestOf(a, s);
        RestOf(b, s);
      }
      AscendingUnique(a[1..], b[1..]);
      assert a == [a[0]] + a[1..] && b == [b[0]] + b[1..];
    } else {
      Nothing(b);
    }
  }

  lemma Nothing(b: seq<seq<byte>>)
    ensures b != [] ==> exists s :: s in b
  {
    if b != [] {
      assert b[0] in b;
    }
  }

  lemma RestOf(a: seq<seq<byte>>, s: seq<byte>)
    requires Ascending(a) && a != []
    ensures s in a[1..] <==> s in a && s != a[0]
  {
    CompareEqual(a[0], a[0]);
    if s in a && s != a[0] {
      var i :| 0 <= i < |a| && a[i] == s;
      assert a[1..][i - 1] == s;
    }
  }

  /** The order of the insertions does not matter. */
  lemma InsertionOrder(entries: seq<seq<byte>>, others: seq<seq<byte>>)
    requires forall s :: s in entries <==> s in others
    ensures AllInserted(entries) == AllInserted(others)
  {
    AllInsertedSorted(entries);
    AllInsertedSorted(others);
    AscendingUnique(AllInserted(entries), AllInserted(others));
  }

  /** Collects strings in a new vector. */
  method InsertAll(entries: seq<seq<byte>>) returns (v: Vector)
    requires Strings(entries) && forall i :: 0 <= i < |entries| ==> entries[i] != []
    ensures fresh(v) && v.Valid() && Entries(v.Contents()) == AllInserted(entries)
  {
    v := new Vector();
    assert entries[..0] == [];
    for i := 0 to |entries|
      invariant fresh(v) && v.Valid() && v.Contents() == Pack(AllInserted(entries[..i]))
    {
      AllInsertedStrings(entries[..i]);
      InsertInOrder(v, entries[i], AllInserted(entries[..i]));
      PrefixNext(entries, i);
    }
    assert entries[..|entries|] == entries;
    AllInsertedStrings(entries);
    EntriesPack(AllInserted(entries));
  }

  lemma AllInsertedStrings(entries: seq<seq<byte>>)
    requires Strings(entries)
    ensures Strings(AllInserted(entries))
  {
    AllInsertedSorted(entries);
    forall i | 0 <= i < |AllInserted(entries)|
      ensures EOS !in AllInserted(entries)[i]
    {
      assert AllInserted(entries)[i] in entries;
    }
  }

  // ---------- argz_stringify ----------

  /** What argz_stringify makes of a vector: it does not look at the first byte, nor at the last. */
  function Restrung(c: seq<byte>, sep: byte): seq<byte> {
    seq(|c|, i requires 0 <= i < |c| => if 0 < i < |c| - 1 && c[i] == EOS then sep else c[i])
  }

  /** argz_stringify; it needs two bytes to stop at. */
  method Stringify(argz: array?<byte>, len: nat, sep: byte)
    requires sep != 0 ==> argz != null && 2 <= len <= argz.Length
    modifies if argz == null then {} else {argz}
    ensures sep != 0 ==> argz[..len] == Restrung(old(argz[..len]), sep)
    ensures sep == 0 && argz != null ==> argz[..] == old(argz[..])
  {
    if sep == 0 {
      return;
    }
    var i := len - 2;
    while i > 0
      invariant 0 <= i <= len - 2
      invariant forall j :: 0 <= j < len ==>
        argz[j] == if i < j < len - 1 && old(argz[j]) == EOS then sep else old(argz[j])
    {
      if argz[i] == EOS {
        argz[i] := sep;
      }
      i := i - 1;
    }
  }

  lemma {:induction false} GlueBytes(list: seq<seq<byte>>, d: byte, i: nat)
    requires list != [] && Strings(list)
    ensures |Pack(list)| == |Glue(list, d)| + 1 && Pack(list)[|Glue(list, d)|] == EOS
    ensures i < |Glue(list, d)| ==> Glue(list, d)[i] == if Pack(list)[i] == EOS then d else Pack(list)[i]
  {
    var w := list[0];
    assert forall j :: 0 <= j < |w| ==> w[j] in w;
    if |list| > 1 {
      GlueBytes(list[1..], d, if i > |w| then i - |w| - 1 else 0);
    } else {
      assert Pack(list) == w + [EOS] + [] && Pack(list[1..]) == [];
    }
  }

  /** The strings are joined by the separator, unless the first of several is empty. */
  lemma StringifyGlues(list: seq<seq<byte>>, sep: byte)
    requires list != [] && Strings(list) && sep != EOS
    ensures Restrung(Pack(list), sep) == Glue(list, sep) + [EOS] <==> list[0] != [] || |list| == 1
  {
    var c, g, r := Pack(list), Glue(list, sep), Restrung(Pack(list), sep);
    forall i | 0 <= i < |g|
      ensures |c| == |g| + 1 && c[|g|] == EOS && g[i] == if c[i] == EOS then sep else c[i]
    {
      GlueBytes(list, sep, i);
    }
    GlueBytes(list, sep, 0);
    if list[0] != [] {
      assert c[0] == list[0][0] && list[0][0] in list[0];
      assert r == g + [EOS];
    } else if |list| == 1 {
      assert r == g + [EOS];
    } else {
      assert c[0] == EOS && r[0] != (g + [EOS])[0];
    }
  }

  /** An empty string in front of another one: the zero after it is the first byte, and stays. */
  lemma EmptyNotGlued(w: seq<byte>, sep: byte)
    requires EOS !in w && sep != EOS
    ensures Restrung(Pack([[], w]), sep) == [EOS] + w + [EOS] != Glue([[], w], sep) + [EOS]
  {
    var c := Pack([[], w]);
    StringifyGlues([[], w], sep);
    assert Pack([w]) == w + [EOS] + [] && c == [] + [EOS] + Pack([w]);
    forall i | 0 <= i < |c|
      ensures Restrung(c, sep)[i] == ([EOS] + w + [EOS])[i]
    {
      assert 0 < i < |c| - 1 ==> c[i] == w[i - 1] && w[i - 1] in w;
    }
  }

  /** A word and a delimiter are split into the word and an empty string. */
  lemma DelimiterAtEnd(w: seq<byte>, d: byte)
    requires w != [] && d !in w
    ensures Pieces(w + [d], d) == [w, []]
  {
    OneWordSnoc(w, d, d);
  }

  /** No delimiter in front, and no two in a row. */
  predicate Folded(s: seq<byte>, d: byte) {
    && (s != [] ==> s[0] != d)
    && forall i :: 0 < i < |s| ==> s[i - 1] != d || s[i] != d
  }

  lemma {:induction false} MarkedFolded(s: seq<byte>, d: byte)
    requires EOS !in s
    ensures |Marked(s, d)| == |s| <==> Folded(s, d)
    ensures |Marked(s, d)| == |s| ==> forall i :: 0 <= i < |s| ==> Marked(s, d)[i] == if s[i] == d then EOS else s[i]
  {
    if s != [] {
      var f := s[..|s| - 1];
      assert forall i :: 0 <= i < |f| ==> f[i] == s[i];
      MarkedFolded(f, d);
      assert s[|s| - 1] in s;
      assert f != [] ==> f[|f| - 1] in s && f[|f| - 1] != EOS;
    }
  }

  /** Splitting and joining gives the string back exactly if there is nothing to fold. */
  lemma NothingToFold(s: seq<byte>, d: byte)
    requires EOS !in s && d != EOS
    ensures Glue(Pieces(s, d), d) == s <==> Folded(s, d)
  {
    var c, g := Pack(Pieces(s, d)), Glue(Pieces(s, d), d);
    MarkedPieces(s, d);
    MarkedFolded(s, d);
    WordsAreStrings(s, d);
    forall i | 0 <= i < |g|
      ensures |c| == |g| + 1 && g[i] == if c[i] == EOS then d else c[i]
    {
      GlueBytes(Pieces(s, d), d, i);
    }
    GlueBytes(Pieces(s, d), d, 0);
    if Folded(s, d) {
      forall i | 0 <= i < |s|
        ensures g[i] == s[i]
      {
        assert c[i] == Marked(s, d)[i] && s[i] in s;
      }
    }
  }

  lemma {:induction false} WordsOfGlue(list: seq<seq<byte>>, t: seq<byte>, d: byte)
    requires AreWords(list, d) && list != [] && (t == [] || t == [d])
    ensures Words(Glue(list, d) + t, d) == list
  {
    var w := list[0];
    if |list| == 1 {
      WordFirst(w, t, d);
      assert [d][1..] == [] && list == [w];
    } else {
      var g := Glue(list[1..], d);
      WordsOfGlue(list[1..], t, d);
      assert Glue(list, d) + t == w + ([d] + (g + t));
      WordFirst(w, [d] + (g + t), d);
      assert ([d] + (g + t))[1..] == g + t;
    }
  }

  lemma {:induction false} GlueSnoc(list: seq<seq<byte>>, w: seq<byte>, d: byte)
    requires list != []
    ensures Glue(list + [w], d) == Glue(list, d) + ([d] + w)
  {
    if |list| == 1 {
      assert (list + [w])[1..] == [w];
    } else {
      assert (list + [w])[1..] == list[1..] + [w];
      GlueSnoc(list[1..], w, d);
    }
  }

  lemma {:induction false} GlueEnd(list: seq<seq<byte>>, d: byte)
    requires AreWords(list, d) && list != []
    ensures Glue(list, d) != [] && Glue(list, d)[|Glue(list, d)| - 1] != d
  {
    if |list| > 1 {
      GlueEnd(list[1..], d);
    } else {
      assert list[0][|list[0]| - 1] in list[0];
    }
  }

  /** What is joined is split into the same strings again. */
  lemma SplitAgain(s: seq<byte>, d: byte)
    requires Words(s, d) != []
    ensures Pieces(Glue(Pieces(s, d), d), d) == Pieces(s, d)
  {
    var list := Words(s, d);
    WordsAreWords(s, d);
    GlueEnd(list, d);
    if AtBreak(s, d) {
      GlueSnoc(list, [], d);
      WordsOfGlue(list, [d], d);
      assert [d] + [] == [d];
    } else {
      WordsOfGlue(list, [], d);
      assert list + [] == list && Glue(list, d) + [] == Glue(list, d);
    }
  }

  /** Splits a string, joins the pieces, and splits the result. */
  method SplitJoin(str: seq<byte>, delim: byte) returns (joined: seq<byte>, again: Vector)
    requires EOS !in str && delim != EOS && Words(str, delim) != []
    ensures joined == Glue(Pieces(str, delim), delim)
    ensures fresh(again) && again.Valid() && Entries(again.Contents()) == Pieces(str, delim)
  {
    var v := new Vector();
    v.CreateSep(str, delim);
    ghost var list := Pieces(str, delim);
    WordsAreWords(str, delim);
    WordsAreStrings(str, delim);
    StringifyGlues(list, delim);
    EntryAt(list, 0);
    Stringify(v.argz, v.len, delim);
    joined := v.argz[..v.len - 1];
    ghost var g := Glue(list, delim);
    assert v.argz[..v.len] == g + [EOS];
    assert joined == g;
    GlueStrings(list, delim);
    again := new Vector();
    again.CreateSep(joined, delim);
    SplitAgain(str, delim);
    EntriesPack(list);
  }

  lemma {:induction false} GlueStrings(list: seq<seq<byte>>, d: byte)
    requires Strings(list) && d != EOS
    ensures EOS !in Glue(list, d)
  {
    if |list| > 1 {
      GlueStrings(list[1..], d);
    }
  }
}
