/** Search paths: elements with a separator between them. */
module Paths {
  import opened Bytes
  import opened Argz

  const PATHSEP: byte := 58    // ':'
  const DIRSEP: byte := 47     // '/'

  // ---------- what the canonical form is ----------

  /** An element with one slash for each run of them, and none at the end. */
  function Norm(e: seq<byte>): (r: seq<byte>)
    ensures |r| <= |e|
  {
    if e == [] then []
    else if e[0] == DIRSEP && (|e| == 1 || e[1] == DIRSEP) then Norm(e[1..])
    else [e[0]] + Norm(e[1..])
  }

  function Norms(list: seq<seq<byte>>): seq<seq<byte>> {
    if list == [] then [] else [Norm(list[0])] + Norms(list[1..])
  }

  /** The list from its first non-empty string on. */
  function SkipEmpty(list: seq<seq<byte>>): seq<seq<byte>> {
    if list == [] || list[0] != [] then list else SkipEmpty(list[1..])
  }

  function NonEmpty(list: seq<seq<byte>>): seq<seq<byte>> {
    if list == [] then []
    else if list[0] == [] then NonEmpty(list[1..])
    else [list[0]] + NonEmpty(list[1..])
  }

  /** The elements of a path that have a character. */
  function Elements(path: seq<byte>): seq<seq<byte>> {
    Words(path, PATHSEP)
  }

  /** The canonical form of a path.  An element of nothing but slashes becomes empty; it is only left
      out if it comes before all others. */
  function Canonical(path: seq<byte>): seq<byte> {
    Glue(SkipEmpty(Norms(Elements(path))), PATHSEP)
  }

  // ---------- the loop ----------

  /** What the loop adds for the rest s of the path, if it has written nothing yet, or something. */
  ghost function Written(s: seq<byte>, nothing: bool): seq<byte> {
    if s == [] then []
    else if s[0] == PATHSEP then
      if nothing || |s| == 1 || s[1] == PATHSEP then Written(s[1..], nothing)
      else [PATHSEP] + Written(s[1..], false)
    else if s[0] == DIRSEP && (|s| == 1 || s[1] == PATHSEP || s[1] == DIRSEP) then Written(s[1..], nothing)
    else [s[0]] + Written(s[1..], false)
  }

  /** An element is written in its normal form. */
  lemma {:induction false} ElementWritten(e: seq<byte>, t: seq<byte>, nothing: bool)
    requires PATHSEP !in e && (t == [] || t[0] == PATHSEP)
    ensures Written(e + t, nothing) == Norm(e) + Written(t, nothing && Norm(e) == [])
  {
    var s := e + t;
    if e == [] {
      assert s == t && [] + Written(t, nothing) == Written(t, nothing);
    } else {
      assert s[0] == e[0] && e[0] in e && s[1..] == e[1..] + t;
      assert |e| > 1 ==> s[1] == e[1] && e[1] in e;
      assert |e| == 1 && t != [] ==> s[1] == t[0];
      if e[0] == DIRSEP && (|e| == 1 || e[1] == DIRSEP) {
        ElementWritten(e[1..], t, nothing);
      } else {
        ElementWritten(e[1..], t, false);
        ConcatAssociative([e[0]], Norm(e[1..]), Written(t, false));
      }
    }
  }

  /** The strings, each after a separator. */
  ghost function Trail(list: seq<seq<byte>>): seq<byte> {
    if list == [] then [] else [PATHSEP] + list[0] + Trail(list[1..])
  }

  lemma {:induction false} GlueTrail(list: seq<seq<byte>>)
    requires list != []
    ensures Glue(list, PATHSEP) == list[0] + Trail(list[1..])
  {
    if |list| > 1 {
      GlueTrail(list[1..]);
      ConcatAssociative(list[0], [PATHSEP], Glue(list[1..], PATHSEP));
      ConcatAssociative([PATHSEP], list[1], Trail(list[1..][1..]));
    }
  }

  /** After something was written: the next elements follow, empty ones as well. */
  lemma {:induction false} TrailWritten(s: seq<byte>)
    requires s == [] || s[0] == PATHSEP
    ensures Written(s, false) == Trail(Norms(Elements(s)))
    decreases |s|
  {
    if s != [] {
      var u := s[1..];
      if u == [] || u[0] == PATHSEP {
        TrailWritten(u);
      } else {
        var n := RunLength(u, PATHSEP);
        var e, t := u[..n], u[n..];
        assert u == e + t;
        ElementWritten(e, t, false);
        TrailWritten(t);
        WordFirst(e, t, PATHSEP);
        assert Elements(s) == [e] + Elements(t);
        assert Norms([e] + Elements(t)) == [Norm(e)] + Norms(Elements(t));
        ConcatAssociative([PATHSEP], Norm(e), Written(t, false));
      }
    }
  }

  /** What the whole loop writes is the canonical form. */
  lemma {:induction false} AllWritten(s: seq<byte>)
    ensures Written(s, true) == Canonical(s)
    decreases |s|
  {
    if s != [] && s[0] == PATHSEP {
      AllWritten(s[1..]);
    } else if s != [] {
      var n := RunLength(s, PATHSEP);
      var e, t := s[..n], s[n..];
      assert s == e + t;
      ElementWritten(e, t, true);
      var list := Norms(Elements(t));
      assert Norms([e] + Elements(t)) == [Norm(e)] + list;
      if Norm(e) == [] {
        AllWritten(t);
      } else {
        TrailWritten(t);
        GlueTrail([Norm(e)] + list);
      }
    }
  }

  lemma WrittenStep(path: seq<byte>, src: nat, nothing: bool)
    requires src < |path| && EOS !in path
    ensures var c, next := path[src], if src + 1 < |path| then path[src + 1] else EOS;
      Written(path[src..], nothing) ==
        if c == PATHSEP && (nothing || next == PATHSEP || next == EOS) then Written(path[src + 1..], nothing)
        else if c == DIRSEP && (next == PATHSEP || next == EOS || next == DIRSEP) then Written(path[src + 1..], nothing)
        else [c] + Written(path[src + 1..], false)
  {
    var s := path[src..];
    assert s[1..] == path[src + 1..];
    assert |s| > 1 ==> s[1] == path[src + 1] && path[src + 1] in path;
  }

  lemma NothingWritten(s: seq<byte>, nothing: bool)
    requires s == []
    ensures Written(s, nothing) == []
  {
  }

  /** canonicalize_path */
  method CanonicalizePath(path: seq<byte>) returns (canonical: array<byte>, ghost dest: nat)
    requires path != [] && EOS !in path
    ensures fresh(canonical) && dest == |Canonical(path)| < canonical.Length
    ensures canonical[..dest + 1] == Canonical(path) + [EOS]
  {
    hide Canonical, Written;
    canonical := new byte[1 + |path|];
    var to := 0;
    assert path[0..] == path && canonical[..0] == [];
    for src := 0 to |path|
      invariant to <= src
      invariant canonical[..to] + Written(path[src..], to == 0) == Written(path, true)
    {
      ghost var done := canonical[..to];
      var next := if src + 1 < |path| then path[src + 1] else EOS;
      WrittenStep(path, src, to == 0);
      if path[src] == PATHSEP {
        if to == 0 || next == PATHSEP || next == EOS {
          continue;
        }
      }
      ConcatAssociative(done, [path[src]], Written(path[src + 1..], false));
      if path[src] != DIRSEP {
        WriteAt(canonical, to, path[src]);
        to := to + 1;
      } else if next != PATHSEP && next != EOS && next != DIRSEP {
        WriteAt(canonical, to, DIRSEP);
        to := to + 1;
      }
    }
    AllWritten(path);
    NothingWritten(path[|path|..], to == 0);
    assert canonical[..to] + [] == canonical[..to];
    WriteAt(canonical, to, EOS);
    dest := to;
  }

  /** a[i] = c */
  method WriteAt(a: array<byte>, i: nat, c: byte)
    requires i < a.Length
    modifies a
    ensures a[..i + 1] == old(a[..i]) + [c]
  {
    a[i] := c;
  }

  // ---------- what the canonical form is good for ----------

  predicate Tidy(c: seq<byte>) {
    forall i :: 0 <= i < |c| && c[i] == DIRSEP ==> i + 1 < |c| && c[i + 1] != DIRSEP && c[i + 1] != PATHSEP
  }

  /** No separator in front, and a plain character after each slash. */
  lemma {:induction false} WrittenTidy(s: seq<byte>, nothing: bool)
    ensures var w := Written(s, nothing);
      && Tidy(w)
      && (nothing && w != [] ==> w[0] != PATHSEP)
      && (s != [] && s[0] != PATHSEP && s[0] != DIRSEP ==> w != [] && w[0] == s[0])
  {
    if s != [] {
      WrittenTidy(s[1..], nothing);
      WrittenTidy(s[1..], false);
    }
  }

  lemma CanonicalTidy(path: seq<byte>)
    ensures Tidy(Canonical(path))
    ensures Canonical(path) != [] ==> Canonical(path)[0] != PATHSEP
  {
    AllWritten(path);
    WrittenTidy(path, true);
  }

  predicate OnlySlashes(e: seq<byte>) {
    forall i :: 0 <= i < |e| ==> e[i] == DIRSEP
  }

  lemma {:induction false} NormEmpty(e: seq<byte>)
    ensures Norm(e) == [] <==> OnlySlashes(e)
  {
    if e != [] {
      assert e == [e[0]] + e[1..];
      NormEmpty(e[1..]);
    }
  }

  lemma {:induction false} NormTwice(e: seq<byte>)
    ensures Norm(Norm(e)) == Norm(e)
    ensures e != [] && e[0] != DIRSEP ==> Norm(e) != [] && Norm(e)[0] == e[0]
    ensures |Norm(e)| > 1 && Norm(e)[0] == DIRSEP ==> Norm(e)[1] != DIRSEP
    ensures Norm(e) != [DIRSEP]
  {
    if e != [] {
      NormTwice(e[1..]);
      var r := Norm(e[1..]);
      if !(e[0] == DIRSEP && (|e| == 1 || e[1] == DIRSEP)) {
        assert ([e[0]] + r)[1..] == r;
      }
    }
  }

  /** The normal form of an element: the names between its slashes with one slash between each two, and
      one in front if there was one; nothing if there are no names. */
  lemma {:induction false} NormNames(e: seq<byte>)
    ensures var names := Words(e, DIRSEP);
      Norm(e) == if names == [] then []
                 else (if e[0] == DIRSEP then [DIRSEP] else []) + Glue(names, DIRSEP)
    decreases e
  {
    if e != [] {
      NormNames(e[1..]);
      NoNames(e[1..]);
      NoNames(e);
      if e[0] != DIRSEP {
        var n := RunLength(e, DIRSEP);
        var rest := Words(e[n..], DIRSEP);
        if n == 1 {
          assert e[..1] == [e[0]];
        } else {
          RunLess(e);
          assert e[1..][n - 1..] == e[n..] && e[..n] == [e[0]] + e[1..][..n - 1];
          assert Words(e[1..], DIRSEP) == [e[1..][..n - 1]] + rest;
          GlueShift(e[0], e[1..][..n - 1], rest);
        }
      }
    }
  }

  lemma RunLess(e: seq<byte>)
    requires |e| > 0 && e[0] != DIRSEP && RunLength(e, DIRSEP) > 1
    ensures |e| > 1 && e[1] != DIRSEP && RunLength(e[1..], DIRSEP) == RunLength(e, DIRSEP) - 1
  {
  }

  lemma GlueShift(b: byte, w: seq<byte>, rest: seq<seq<byte>>)
    ensures Glue([[b] + w] + rest, DIRSEP) == [b] + Glue([w] + rest, DIRSEP)
  {
    assert ([[b] + w] + rest)[1..] == rest == ([w] + rest)[1..];
    if rest != [] {
      ConcatAssociative([b], w, [DIRSEP]);
      ConcatAssociative([b], w + [DIRSEP], Glue(rest, DIRSEP));
    }
  }

  lemma {:induction false} NoNames(e: seq<byte>)
    ensures Words(e, DIRSEP) == [] <==> OnlySlashes(e)
  {
    if e != [] {
      NoNames(e[1..]);
      assert e == [e[0]] + e[1..];
    }
  }

  /** Of the elements those in front that have only slashes are left out, and no others. */
  lemma CanonicalFrom(path: seq<byte>, k: nat)
    requires var e := Elements(path);
      k <= |e| && (forall i :: 0 <= i < k ==> OnlySlashes(e[i])) && (k < |e| ==> !OnlySlashes(e[k]))
    ensures k <= |Norms(Elements(path))| && Canonical(path) == Glue(Norms(Elements(path))[k..], PATHSEP)
  {
    var e := Elements(path);
    NormsAt(e);
    forall i | 0 <= i < |e|
      ensures Norm(e[i]) == [] <==> OnlySlashes(e[i])
    {
      NormEmpty(e[i]);
    }
    SkipAt(Norms(e), k);
  }

  lemma {:induction false} SkipAt(list: seq<seq<byte>>, k: nat)
    requires k <= |list| && (forall i :: 0 <= i < k ==> list[i] == []) && (k < |list| ==> list[k] != [])
    ensures SkipEmpty(list) == list[k..]
    decreases k
  {
    if k > 0 {
      SkipAt(list[1..], k - 1);
    }
  }

  lemma {:induction false} NonEmptyConcat(a: seq<seq<byte>>, b: seq<seq<byte>>)
    ensures NonEmpty(a + b) == NonEmpty(a) + NonEmpty(b)
    ensures |a| == 1 ==> NonEmpty(a) == if a[0] == [] then [] else a
  {
    if a == [] {
      assert a + b == b;
    } else {
      assert (a + b)[1..] == a[1..] + b;
      NonEmptyConcat(a[1..], b);
    }
  }

  /** Strings without a separator. */
  predicate Apart(list: seq<seq<byte>>) {
    forall i :: 0 <= i < |list| ==> PATHSEP !in list[i]
  }

  lemma {:induction false} NormApart(e: seq<byte>)
    requires PATHSEP !in e
    ensures PATHSEP !in Norm(e)
  {
    if e != [] {
      assert forall i :: 0 <= i < |e[1..]| ==> e[1..][i] in e;
      assert e[0] in e;
      NormApart(e[1..]);
    }
  }

  lemma {:induction false} NormsAt(list: seq<seq<byte>>)
    ensures |Norms(list)| == |list| && forall i :: 0 <= i < |list| ==> Norms(list)[i] == Norm(list[i])
  {
    if list != [] {
      NormsAt(list[1..]);
      assert forall i :: 0 < i < |list| ==> Norms(list)[i] == Norms(list[1..])[i - 1];
    }
  }

  lemma ElementsApart(path: seq<byte>)
    ensures Apart(Norms(Elements(path)))
  {
    var e := Elements(path);
    WordsAreWords(path, PATHSEP);
    NormsAt(e);
    forall i | 0 <= i < |e|
      ensures PATHSEP !in Norms(e)[i]
    {
      NormApart(e[i]);
    }
  }

  /** The words of strings with separators between them are the non-empty ones. */
  lemma {:induction false} WordsNonEmpty(list: seq<seq<byte>>)
    requires Apart(list)
    ensures Words(Glue(list, PATHSEP), PATHSEP) == NonEmpty(list)
  {
    if list != [] {
      var w := list[0];
      if |list| == 1 {
        WordFirst(w, [], PATHSEP);
        assert w + [] == w && NonEmpty(list[1..]) == [];
      } else {
        var g := Glue(list[1..], PATHSEP);
        WordsNonEmpty(list[1..]);
        ConcatAssociative(w, [PATHSEP], g);
        assert ([PATHSEP] + g)[1..] == g;
        if w == [] {
          assert w + ([PATHSEP] + g) == [PATHSEP] + g;
        } else {
          WordFirst(w, [PATHSEP] + g, PATHSEP);
        }
      }
    }
  }

  lemma {:induction false} SkipEmptyKeeps(list: seq<seq<byte>>)
    ensures NonEmpty(SkipEmpty(list)) == NonEmpty(list)
    ensures Apart(list) ==> Apart(SkipEmpty(list))
    ensures SkipEmpty(list) == [] ==> NonEmpty(list) == [] && forall i :: 0 <= i < |list| ==> list[i] == []
    ensures SkipEmpty(list) != [] ==>
      SkipEmpty(list)[0] != [] && SkipEmpty(list)[|SkipEmpty(list)| - 1] == list[|list| - 1]
  {
    if list != [] && list[0] == [] {
      SkipEmptyKeeps(list[1..]);
      assert list == [list[0]] + list[1..];
    }
  }

  lemma {:induction false} GlueLast(list: seq<seq<byte>>)
    requires |list| > 1
    ensures Glue(list, PATHSEP) != []
    ensures list[|list| - 1] == [] ==> Glue(list, PATHSEP)[|Glue(list, PATHSEP)| - 1] == PATHSEP
    ensures list[|list| - 1] != [] ==>
      Glue(list, PATHSEP)[|Glue(list, PATHSEP)| - 1] == list[|list| - 1][|list[|list| - 1]| - 1]
  {
    if |list| > 2 {
      GlueLast(list[1..]);
    } else {
      assert Glue(list, PATHSEP) == list[0] + [PATHSEP] + list[1];
    }
  }

  /** The strings the canonical form of a path is split into: the elements with something else than
      slashes, in order and in normal form; and an empty string if there is none, or if the last
      element has nothing but slashes. */
  lemma CanonicalPieces(path: seq<byte>)
    ensures var e := Elements(path);
      Pieces(Canonical(path), PATHSEP)
      == NonEmpty(Norms(e)) + if e == [] || OnlySlashes(e[|e| - 1]) then [[]] else []
  {
    var e, list := Elements(path), SkipEmpty(Norms(Elements(path)));
    var c := Canonical(path);
    ElementsApart(path);
    SkipEmptyKeeps(Norms(e));
    WordsNonEmpty(list);
    NormsAt(e);
    if e != [] {
      NormEmpty(e[|e| - 1]);
    }
    if |list| > 1 {
      GlueLast(list);
      if list[|list| - 1] != [] {
        var last := list[|list| - 1];
        assert last[|last| - 1] in last;
      }
    } else if |list| == 1 {
      assert list[0][|list[0]| - 1] in list[0];
    }
  }

  /** Without elements of only slashes, all elements are enumerated, and nothing else. */
  lemma AllElements(path: seq<byte>)
    requires Elements(path) != [] && forall i :: 0 <= i < |Elements(path)| ==> !OnlySlashes(Elements(path)[i])
    ensures Pieces(Canonical(path), PATHSEP) == Norms(Elements(path)) && Canonical(Canonical(path)) == Canonical(path)
  {
    var e := Elements(path);
    CanonicalPieces(path);
    NormsAt(e);
    forall i | 0 <= i < |e|
      ensures Norms(e)[i] != []
    {
      NormEmpty(e[i]);
    }
    NonEmptyTail(Norms(e));
    Idempotent(path);
  }

  lemma {:induction false} GlueShorter(list: seq<seq<byte>>)
    requires list != [] ==> list[0] != []
    ensures NonEmpty(list) == list <==> forall i :: 0 <= i < |list| ==> list[i] != []
    ensures NonEmpty(list) != list ==> |Glue(NonEmpty(list), PATHSEP)| < |Glue(list, PATHSEP)|
    decreases |list|
  {
    if list != [] {
      NonEmptyTail(list[1..]);
      GlueTrail(list);
      assert NonEmpty(list) == [list[0]] + NonEmpty(list[1..]);
      GlueTrail([list[0]] + NonEmpty(list[1..]));
    }
  }

  lemma {:induction false} NonEmptyTail(list: seq<seq<byte>>)
    ensures NonEmpty(list) == list <==> forall i :: 0 <= i < |list| ==> list[i] != []
    ensures |NonEmpty(list)| <= |list|
    ensures NonEmpty(list) != list ==> |Trail(NonEmpty(list))| < |Trail(list)|
  {
    if list != [] {
      NonEmptyTail(list[1..]);
      assert list == [list[0]] + list[1..];
      if list[0] == [] {
        assert |NonEmpty(list)| < |list|;
      }
    }
  }

  lemma {:induction false} NormsNonEmpty(list: seq<seq<byte>>)
    ensures Norms(NonEmpty(Norms(list))) == NonEmpty(Norms(list))
  {
    if list != [] {
      NormsNonEmpty(list[1..]);
      NormTwice(list[0]);
      if Norm(list[0]) != [] {
        assert NonEmpty(Norms(list)) == [Norm(list[0])] + NonEmpty(Norms(list[1..]));
      }
    }
  }

  lemma {:induction false} SkipNothing(list: seq<seq<byte>>)
    ensures SkipEmpty(NonEmpty(list)) == NonEmpty(list)
  {
    if list != [] && list[0] == [] {
      SkipNothing(list[1..]);
    }
  }

  /** No element of only slashes comes after another one. */
  predicate Settled(path: seq<byte>) {
    var e := Elements(path);
    forall i, j :: 0 <= i < j < |e| && OnlySlashes(e[j]) ==> OnlySlashes(e[i])
  }

  /** Normalising again changes nothing, exactly for these paths. */
  lemma Idempotent(path: seq<byte>)
    ensures Canonical(Canonical(path)) == Canonical(path) <==> Settled(path)
  {
    var e := Elements(path);
    var n := Norms(e);
    var list := SkipEmpty(n);
    ElementsApart(path);
    SkipEmptyKeeps(n);
    WordsNonEmpty(list);
    assert Elements(Canonical(path)) == NonEmpty(n);
    NormsNonEmpty(e);
    SkipNothing(n);
    assert Canonical(Canonical(path)) == Glue(NonEmpty(list), PATHSEP);
    GlueShorter(list);
    SettledNorms(path);
    AllOrNone(n);
  }

  predicate EmptyFirst(n: seq<seq<byte>>) {
    forall i, j :: 0 <= i < j < |n| && n[j] == [] ==> n[i] == []
  }

  lemma SettledNorms(path: seq<byte>)
    ensures var n := Norms(Elements(path));
      Settled(path) <==> EmptyFirst(n)
  {
    var e := Elements(path);
    NormsAt(e);
    forall i | 0 <= i < |e|
      ensures Norms(e)[i] == [] <==> OnlySlashes(e[i])
    {
      NormEmpty(e[i]);
    }
  }

  lemma {:induction false} AllOrNone(n: seq<seq<byte>>)
    ensures (forall i :: 0 <= i < |SkipEmpty(n)| ==> SkipEmpty(n)[i] != []) <==> EmptyFirst(n)
  {
    if n != [] && n[0] == [] {
      AllOrNone(n[1..]);
      EmptyFirstTail(n);
      assert SkipEmpty(n) == SkipEmpty(n[1..]);
    } else if n != [] {
      assert SkipEmpty(n) == n;
      if j :| 0 <= j < |n| && n[j] == [] {
        assert n[0] != [] && 0 < j;
      }
    }
  }

  lemma EmptyFirstTail(n: seq<seq<byte>>)
    requires n != [] && n[0] == []
    ensures EmptyFirst(n) <==> EmptyFirst(n[1..])
  {
    var t := n[1..];
    assert forall i :: 0 < i < |n| ==> n[i] == t[i - 1];
    if i, j :| 0 <= i < j < |t| && t[j] == [] && t[i] != [] {
      assert n[j + 1] == [] && n[i + 1] != [];
    }
  }

  const A_B: seq<byte> := [97, 58, 47, 58, 98]     // a:/:b

  /** The path a:/:b becomes a::b, and that a:b. */
  lemma CanonicalTwice()
    ensures Canonical(A_B) == [97, 58, 58, 98]
    ensures Canonical(Canonical(A_B)) == [97, 58, 98]
  {
    hide Canonical;
    AllWritten(A_B);
    AllWritten([97, 58, 58, 98]);
    WriteOut();
  }

  lemma WriteOut()
    ensures Written(A_B, true) == [97, 58, 58, 98]
    ensures Written([97, 58, 58, 98], true) == [97, 58, 98]
  {
    var b: seq<byte> := [98];
    assert Written(b, false) == b by { assert b[1..] == []; }
    assert Written([58, 98], false) == [58, 98] by { assert [58, 98][1..] == b; }
    assert Written([58, 58, 98], false) == [58, 98] by { assert [58, 58, 98][1..] == [58, 98]; }
    assert Written([47, 58, 98], false) == [58, 98] by { assert [47, 58, 98][1..] == [58, 98]; }
    assert Written([58, 47, 58, 98], false) == [58, 58, 98] by { assert [58, 47, 58, 98][1..] == [47, 58, 98]; }
    assert A_B[1..] == [58, 47, 58, 98] && [97, 58, 58, 98][1..] == [58, 58, 98];
  }

  /** In the path a:/ an empty name is enumerated behind a. */
  method EmptyName() returns (names: seq<seq<byte>>)
    ensures names == [[97], []]
  {
    hide Canonical, Pieces;
    names := ForEachDirInPath([97, 58, 47]);
    AllWritten([97, 58, 47]);
    SlashesWritten();
    DelimiterAtEnd([97], PATHSEP);
    assert [97] + [PATHSEP] == [97, 58];
  }

  lemma SlashesWritten()
    ensures Written([97, 58, 47], true) == [97, 58]
  {
    assert [97, 58, 47][1..] == [58, 47] && [58, 47][1..] == [47] && [47][1..] == [];
    assert Written([47], false) == [] && Written([58, 47], false) == [58];
  }

  /** foreach_dirinpath without a base name: the directory names the callback is called with, for a
      callback that does not stop. */
  method ForEachDirInPath(path: seq<byte>) returns (names: seq<seq<byte>>)
    requires EOS !in path
    ensures path == [] ==> names == []
    ensures path != [] ==> names == Pieces(Canonical(path), PATHSEP)
  {
    hide Pieces, Pack, EndOf, Words, Canonical;
    names := [];
    if path == [] {
      return;
    }
    var canonical := CanonicalText(path);
    var v := new Vector();
    v.CreateSep(canonical, PATHSEP);
    ghost var list := Pieces(canonical, PATHSEP);
    PiecesAreStrings(canonical);
    EmptyPack(list);
    ghost var k := 0;
    var dir := v.Next(None);
    assert list[..0] == [];
    while dir.Some?
      invariant v.Valid() && v.Contents() == Pack(list)
      invariant k <= |list| && names == list[..k]
      invariant dir == if k < |list| then Some(Offset(list, k)) else None
      decreases |list| - k
    {
      var name := StringAt(v, dir.value, list, k);
      names := names + [name];
      PrefixNext(list, k);
      dir := NextAt(v, dir.value, list, k);
      k := k + 1;
    }
    assert list[..k] == list;
  }

  lemma PiecesAreStrings(s: seq<byte>)
    requires EOS !in s
    ensures Strings(Pieces(s, PATHSEP))
  {
    WordsAreStrings(s, PATHSEP);
  }

  /** The canonical form as a zero-terminated string. */
  method CanonicalText(path: seq<byte>) returns (text: seq<byte>)
    requires path != [] && EOS !in path
    ensures text == Canonical(path) && EOS !in text
  {
    hide Canonical;
    var canonical, dest := CanonicalizePath(path);
    AllWritten(path);
    WrittenStrings(path, true);
    ghost var c := Canonical(path);
    assert canonical[..] == canonical[..dest + 1] + canonical[dest + 1..];
    EndOfString(canonical[..], c, canonical[dest + 1..], 0);
    var n := StrLen(canonical);
    text := canonical[..n];
    assert text == canonical[..dest + 1][..n] == c;
  }

  method StrLen(a: array<byte>) returns (n: nat)
    requires EndOf(a[..], 0) < a.Length
    ensures n == EndOf(a[..], 0)
  {
    n := 0;
    while a[n] != EOS
      invariant n <= EndOf(a[..], 0) && EndOf(a[..], n) == EndOf(a[..], 0)
      decreases a.Length - n
    {
      n := n + 1;
    }
  }

  lemma {:induction false} WrittenStrings(s: seq<byte>, nothing: bool)
    requires EOS !in s
    ensures EOS !in Written(s, nothing)
  {
    if s != [] {
      assert s[0] in s;
      WrittenStrings(s[1..], nothing);
      WrittenStrings(s[1..], false);
    }
  }
}
