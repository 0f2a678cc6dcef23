/** The look-aside buffer of `struct soap`: text whose length is not known yet is put into one
    buffer, which is doubled when it is full and kept for the next text. */
module LookAside {
  import opened Bytes

  const SOAP_LABLEN: nat := 256

  /** The size the buffer has after it was doubled until more than `need` bytes fit. */
  function Doubled(len: nat, need: nat): (r: nat)
    requires len > 0
    ensures r >= len && r > need && (r == len || r / 2 <= need)
    decreases need - len
  {
    if need < len then len else Doubled(2 * len, need)
  }

  /** strdup, of the string in a buffer */
  method StrDup(a: array<byte>) returns (r: array<byte>)
    requires 0 in a[..]
    ensures fresh(r) && r[..] == CStr(a[..]) + [0]
  {
    var s := CStr(a[..]);
    r := new byte[|s| + 1];
    CopyInto(r, 0, s + [0]);
  }

  class Buffer {
    var labbuf: array?<byte>
    var labidx: nat     // the index of the free part
    var lablen: nat

    ghost predicate Valid()
      reads this`labbuf, this`labidx, this`lablen
    {
      labidx <= lablen && if labbuf == null then lablen == 0 else labbuf.Length == lablen >= SOAP_LABLEN
    }

    /** The first s bytes. */
    ghost function Written(s: nat): (w: seq<byte>)
      requires Valid() && s <= labidx
      reads this`labbuf, this`labidx, this`lablen, labbuf
      ensures labbuf != null ==> |w| == s
      ensures s == 0 ==> w == []
    {
      if labbuf == null then [] else labbuf[..s]
    }

    ghost function Contents(): seq<byte>
      requires Valid()
      reads this`labbuf, this`labidx, this`lablen, labbuf
    {
      Written(labidx)
    }

    constructor ()
      ensures Valid() && labbuf == null && labidx == 0
    {
      labbuf, labidx, lablen := null, 0, 0;
    }

    /** The part of soap_append_lab that makes room for n bytes and one more */
    method Reserve(n: nat)
      requires Valid()
      modifies this`labbuf, this`lablen
      ensures Valid() && labbuf != null && (labbuf == old(labbuf) || fresh(labbuf))
      ensures Contents() == old(Contents())
      ensures lablen == Doubled(if old(lablen) == 0 then SOAP_LABLEN else old(lablen), labidx + n)
    {
      if labidx + n >= lablen {
        var t := labbuf;
        if lablen == 0 {
          lablen := SOAP_LABLEN;
        }
        ghost var len := lablen;
        while labidx + n >= lablen
          invariant lablen >= SOAP_LABLEN && Doubled(len, labidx + n) == Doubled(lablen, labidx + n)
          decreases labidx + n - lablen
        {
          lablen := 2 * lablen;
        }
        labbuf := new byte[lablen];
        if t != null {
          CopyInto(labbuf, 0, t[..labidx]);
        }
      }
    }

    /** soap_append_lab.  There is room for another byte then. */
    method Append(s: seq<byte>)
      requires Valid()
      modifies this, labbuf
      ensures Valid() && labbuf != null && (labbuf == old(labbuf) || fresh(labbuf))
      ensures Contents() == old(Contents()) + s
      ensures labidx == old(labidx) + |s|
      ensures lablen == Doubled(if old(lablen) == 0 then SOAP_LABLEN else old(lablen), labidx)
    {
      hide Doubled;
      Reserve(|s|);
      CopyInto(labbuf, labidx, s);
      assert labbuf[..labidx + |s|] == labbuf[..labidx] + labbuf[labidx..labidx + |s|];
      labidx := labidx + |s|;
    }

    /** soap_store_lab */
    method Store(s: seq<byte>)
      requires Valid()
      modifies this, labbuf
      ensures Valid() && labbuf != null && (labbuf == old(labbuf) || fresh(labbuf))
      ensures Contents() == s && labidx == |s| < lablen
    {
      labidx := 0;
      Append(s);
    }

    /** Claims the free part, which begins at s, and makes one if there is none. */
    method Claim() returns (s: nat)
      requires Valid()
      modifies this, labbuf
      ensures Valid() && labbuf != null && (labbuf == old(labbuf) || fresh(labbuf))
      ensures s == old(labidx) < labidx == lablen && Written(s) == old(Contents())
    {
      Append([]);
      s := labidx;
      labidx := lablen;
    }

    /** Everything behind the first s bytes is claimed; or nothing is written and claimed yet. */
    ghost predicate Filling(s: nat)
      reads this`labbuf, this`labidx, this`lablen
    {
      Valid() && s <= labidx && (labidx == lablen || labidx == 0)
    }

    /** Claims more if the claimed part is full. */
    method Room(s0: nat) returns (s: nat)
      requires Filling(s0)
      modifies this, labbuf
      ensures Filling(s) && labbuf != null && (labbuf == old(labbuf) || fresh(labbuf))
      ensures s == s0 < labidx && Written(s) == old(Written(s0))
    {
      hide Written;
      s := s0;
      if s == labidx {
        s := Claim();
      }
    }

    /** labbuf[s] = c */
    method Put(s: nat, c: byte)
      requires Filling(s) && labbuf != null && s < labidx
      modifies labbuf
      ensures Filling(s + 1) && Written(s + 1) == old(Written(s)) + [c]
    {
      labbuf[s] := c;
    }

    /** Ends the text with a zero and makes a copy of it. */
    method Finish(s: nat) returns (r: array<byte>)
      requires Filling(s) && labbuf != null && s < labidx
      modifies labbuf
      ensures Valid() && fresh(r) && r[..] == CStr(old(Written(s))) + [0]
    {
      hide CStr;
      labbuf[s] := 0;
      StringOf(labbuf[..], s);
      r := StrDup(labbuf);
    }
  }
}
