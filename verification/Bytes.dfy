/** Bytes, byte strings and the few sequence functions the other modules share. */
module Bytes {

  /** An octet.  The C sources store octets in `char`; see SignedChar for where the sign shows. */
  type byte = x: int | 0 <= x < 256

  const CR: byte := 13
  const LF: byte := 10
  const CRLF: seq<byte> := [13, 10]

  /** End of input as the readers report it. */
  const EOF: int := -1

  datatype Option<+T> = None | Some(value: T)

  /** The concatenation of a list of strings. */
  function Flatten<T>(ss: seq<seq<T>>): seq<T> {
    if ss == [] then [] else ss[0] + Flatten(ss[1..])
  }

  lemma {:induction false} FlattenConcat<T>(a: seq<seq<T>>, b: seq<seq<T>>)
    ensures Flatten(a + b) == Flatten(a) + Flatten(b)
  {
    if a == [] {
      assert a + b == b;
    } else {
      assert (a + b)[1..] == a[1..] + b;
      FlattenConcat(a[1..], b);
    }
  }

  lemma FlattenSnoc<T>(a: seq<seq<T>>, s: seq<T>)
    ensures Flatten(a + [s]) == Flatten(a) + s
  {
    FlattenConcat(a, [s]);
    assert Flatten([s]) == s + Flatten<T>([]);
  }

  lemma FlattenFirst<T>(ss: seq<seq<T>>)
    requires ss != []
    ensures Flatten(ss) == ss[0] + Flatten(ss[1..])
  {
  }

  lemma ConcatAssociative<T>(a: seq<T>, b: seq<T>, c: seq<T>)
    ensures a + b + c == a + (b + c)
  {
  }

  lemma FlattenNext<T>(ss: seq<seq<T>>, k: nat)
    requires k < |ss|
    ensures Flatten(ss[..k + 1]) == Flatten(ss[..k]) + ss[k]
  {
    FlattenSnoc(ss[..k], ss[k]);
    assert ss[..k + 1] == ss[..k] + [ss[k]];
  }

  /** A byte read through a signed `char`; 255 comes out as EOF. */
  function SignedChar(b: byte): int {
    if b < 128 then b else b - 256
  }

  /** Eight bits in two's complement */
  lemma SignedBits(b: byte)
    ensures -128 <= SignedChar(b) <= 127 && (SignedChar(b) == b || SignedChar(b) == b - 256)
    ensures SignedChar(b) == EOF <==> b == 255
  {
  }

  /** The string in a buffer: what is in front of the first zero byte */
  function CStr(s: seq<byte>): (c: seq<byte>)
    ensures c <= s && 0 !in c && (c == s || s[|c|] == 0)
  {
    if s == [] || s[0] == 0 then [] else [s[0]] + CStr(s[1..])
  }

  lemma WholeCStr(s: seq<byte>)
    requires 0 !in s
    ensures CStr(s) == s
  {
  }

  /** The string in a buffer whose bytes are written up to a final zero. */
  lemma {:induction false} StringOf(a: seq<byte>, n: nat)
    requires n < |a| && a[n] == 0
    ensures CStr(a) == CStr(a[..n]) && 0 in a
    decreases n
  {
    if n > 0 {
      assert a[..n][1..] == a[1..][..n - 1];
      StringOf(a[1..], n - 1);
    }
  }

  function Min(a: int, b: int): int {
    if a <= b then a else b
  }

  /** memcpy(a + at, s, |s|) */
  method CopyInto(a: array<byte>, at: nat, s: seq<byte>)
    requires at + |s| <= a.Length
    modifies a
    ensures a[at..at + |s|] == s
    ensures a[..at] == old(a[..at])
    ensures a[at + |s|..] == old(a[at + |s|..])
  {
    forall k | 0 <= k < |s| {
      a[at + k] := s[k];
    }
  }

  /** The bytes of a text of ASCII characters */
  function Ascii(s: string): (b: seq<byte>)
    requires forall i :: 0 <= i < |s| ==> s[i] < 128 as char
    ensures |b| == |s| && forall i :: 0 <= i < |s| ==> b[i] == s[i] as int
  {
    seq(|s|, i requires 0 <= i < |s| => s[i] as int)
  }

  function Reverse<T>(s: seq<T>): (r: seq<T>)
    ensures |r| == |s|
  {
    if s == [] then [] else Reverse(s[1..]) + [s[0]]
  }

  lemma {:induction false} ReverseAt<T>(s: seq<T>, i: nat)
    requires i < |s|
    ensures Reverse(s)[i] == s[|s| - 1 - i]
  {
    if i < |s| - 1 {
      ReverseAt(s[1..], i);
    }
  }

  lemma PrefixNext<T>(s: seq<T>, k: nat)
    requires k < |s|
    ensures s[..k + 1] == s[..k] + [s[k]]
    ensures s[..k + 1][..k] == s[..k]
  {
  }
}
