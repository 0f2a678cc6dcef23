/** Runs of calls on the table of ids: lookups, forwardings and entries in any order, and resolving at
    the end. */
module IdRun {
  import opened Bytes
  import opened IdRef

  /** Of an entry the place p is where its object is, be it the caller's or newly allocated. */
  datatype Call =
    | Lookup(id: Id, p: nat, kind: int, size: nat)
    | Forwarding(id: Id, p: nat, kind: int, size: nat, own: bool)
    | Entering(id: Id, p: nat, kind: int, size: nat)

  /** There is nothing to do. */
  predicate Blank(c: Call) {
    c.id == [] || (c.p == 0 && !c.Entering?)
  }

  /** A lookup or forwarding of something: it may write to its cell. */
  predicate Writes(c: Call) {
    !c.Entering? && !Blank(c)
  }

  // ---------- what a run comes to ----------

  /** What the table stands for: the row of each id, and the id each referring cell is for. */
  datatype Book = Book(rows: map<Id, Row>, refOf: map<nat, Id>)

  function RowFor(b: Book, c: Call): Row {
    Find(b.rows, c.id, Row(c.kind, c.size, 0, [], [], []))
  }

  /** The call does not end with an error: no other kind of object is asked for, no other size where a
      copy is to be made, and the object is the only one with its id. */
  predicate Accepts(b: Book, c: Call) {
    var row := RowFor(b, c);
    Blank(c) ||
    match c
    case Lookup(_, _, kind, _) => row.ptr == 0 || row.kind == kind
    case Forwarding(_, _, kind, n, _) => row.kind == kind && row.size == n
    case Entering(_, _, kind, n) => row.ptr == 0 && (Waiting(row) ==> row.kind == kind && row.size == n)
  }

  /** The place goes into the chain of copies. */
  predicate Chained(c: Call) {
    c.Forwarding? && !c.own && c.size >= 1 && c.id != [] && c.id[0] == HASH
  }

  function Step(b: Book, c: Call): Book {
    var row := RowFor(b, c);
    if Blank(c) || !Accepts(b, c) then b
    else match c
      case Lookup(id, p, _, _) =>
        Book(if row.ptr != 0 then b.rows else b.rows[id := row.(refs := [p] + row.refs)], b.refOf[p := id])
      case Forwarding(id, p, _, _, own) =>
        var row' := if Chained(c) then row.(copies := [p] + row.copies)
                    else row.(forwards := [Forward(p, own)] + row.forwards);
        b.(rows := b.rows[id := row'])
      case Entering(id, p, _, n) => b.(rows := b.rows[id := row.(size := n, ptr := p)])
  }

  function Run(calls: seq<Call>): Book {
    if calls == [] then Book(map[], map[]) else Step(Run(calls[..|calls| - 1]), calls[|calls| - 1])
  }

  predicate Accepted(calls: seq<Call>, i: nat) {
    i < |calls| && Accepts(Run(calls[..i]), calls[i])
  }

  lemma RunNext(calls: seq<Call>, n: nat)
    requires n < |calls|
    ensures Run(calls[..n + 1]) == Step(Run(calls[..n]), calls[n])
  {
    PrefixNext(calls, n);
  }

  /** No cell is written to by two calls. */
  predicate Distinct(calls: seq<Call>) {
    forall i, j :: 0 <= i < j < |calls| && Writes(calls[i]) && Writes(calls[j]) ==> calls[i].p != calls[j].p
  }

  /** Cells are words of the memory, and objects are somewhere. */
  predicate Fit(keys: set<nat>, calls: seq<Call>) {
    && Distinct(calls)
    && (forall i :: 0 <= i < |calls| && Writes(calls[i]) ==> calls[i].p in keys)
    && (forall i :: 0 <= i < |calls| && calls[i].Entering? ==> calls[i].p != 0)
  }

  // ---------- where it comes from ----------

  /** What the book says of a cell comes from a lookup. */
  lemma {:induction false} RefFrom(calls: seq<Call>, n: nat, a: nat) returns (i: nat)
    requires n <= |calls| && a in Run(calls[..n]).refOf
    ensures i < n && Accepted(calls, i) && calls[i].Lookup? && Writes(calls[i])
    ensures calls[i].p == a && calls[i].id == Run(calls[..n]).refOf[a]
    decreases n
  {
    hide Accepts, Run;
    NoRun(calls[..0]);
    i := n - 1;
    RunNext(calls, i);
    var c := calls[i];
    if !(Accepted(calls, i) && c.Lookup? && Writes(c) && c.p == a) {
      i := RefFrom(calls, i, a);
    }
  }

  lemma NoRun(calls: seq<Call>)
    requires calls == []
    ensures Run(calls) == Book(map[], map[])
  {
  }

  /** An id is in the book because of a call. */
  lemma {:induction false} RowFrom(calls: seq<Call>, n: nat, id: Id) returns (i: nat)
    requires n <= |calls| && id in Run(calls[..n]).rows
    ensures i < n && Accepted(calls, i) && !Blank(calls[i]) && calls[i].id == id
    decreases n
  {
    hide Accepts, Run;
    NoRun(calls[..0]);
    i := n - 1;
    RunNext(calls, i);
    if id in Run(calls[..i]).rows {
      i := RowFrom(calls, i, id);
    }
  }

  /** An object is in the book because it was entered. */
  lemma {:induction false} ObjectFrom(calls: seq<Call>, n: nat, id: Id) returns (i: nat)
    requires n <= |calls| && id in Run(calls[..n]).rows && Run(calls[..n]).rows[id].ptr != 0
    ensures i < n && Accepted(calls, i) && calls[i].Entering? && calls[i].id == id && id != []
    ensures calls[i].p == Run(calls[..n]).rows[id].ptr && calls[i].size == Run(calls[..n]).rows[id].size
    decreases n
  {
    hide Run;
    NoRun(calls[..0]);
    i := n - 1;
    RunNext(calls, i);
    var c := calls[i];
    if !(Accepted(calls, i) && c.Entering? && c.id == id && !Blank(c)) {
      i := ObjectFrom(calls, i, id);
    }
  }

  /** A plain forwarding that was accepted */
  predicate Places(calls: seq<Call>, i: nat) {
    Accepted(calls, i) && calls[i].Forwarding? && !Blank(calls[i]) && !calls[i].own
  }

  lemma TargetWaits(row: Row, x: nat)
    requires x in Targets(row)
    ensures Waiting(row)
  {
  }

  /** The places after another one came */
  lemma MoreTargets(row: Row, p: nat, own: bool)
    ensures Targets(row.(copies := [p] + row.copies)) == [p] + Targets(row)
    ensures Targets(row.(forwards := [Forward(p, own)] + row.forwards)) ==
      if own then Targets(row) else row.copies + [p] + Plain(row.forwards)
  {
    var f := [Forward(p, own)] + row.forwards;
    assert f[1..] == row.forwards;
    if own {
      assert [] + Plain(row.forwards) == Plain(row.forwards);
    }
  }

  lemma AmongTargets(row: Row, p: nat, own: bool, x: nat)
    ensures x in Targets(row.(copies := [p] + row.copies)) <==> x == p || x in Targets(row)
    ensures x in Targets(row.(forwards := [Forward(p, own)] + row.forwards)) <==> (!own && x == p) || x in Targets(row)
  {
    hide Plain;
    MoreTargets(row, p, own);
  }

  /** A place for a copy comes from a forwarding, of an object of this size. */
  lemma {:induction false} TargetFrom(calls: seq<Call>, n: nat, id: Id, x: nat) returns (i: nat)
    requires n <= |calls| && id in Run(calls[..n]).rows && x in Targets(Run(calls[..n]).rows[id])
    ensures i < n && Places(calls, i) && calls[i].id == id && calls[i].p == x
    ensures calls[i].size == Run(calls[..n]).rows[id].size
    decreases n
  {
    hide Run, Targets, Plain;
    NoRun(calls[..0]);
    i := n - 1;
    RunNext(calls, i);
    var b, c := Run(calls[..i]), calls[i];
    var row := RowFor(b, c);
    AmongTargets(row, c.p, if c.Forwarding? then c.own else true, x);
    NoTarget(c.kind, c.size);
    SameTargets(row, c.p, c.size);
    if !(Places(calls, i) && c.id == id && c.p == x) {
      assert id in b.rows && x in Targets(b.rows[id]);
      TargetWaits(b.rows[id], x);
      i := TargetFrom(calls, i, id, x);
    }
  }

  lemma NoTarget(kind: int, size: nat)
    ensures Targets(Row(kind, size, 0, [], [], [])) == []
  {
  }

  lemma SameTargets(row: Row, p: nat, n: nat)
    ensures Targets(row.(refs := [p] + row.refs)) == Targets(row)
    ensures Targets(row.(size := n, ptr := p)) == Targets(row)
  {
  }

  /** An id with a chain of places has an object, or will have one, of at least a word. */
  lemma {:induction false} ChainSize(calls: seq<Call>, n: nat, id: Id)
    requires n <= |calls| && id in Run(calls[..n]).rows && Run(calls[..n]).rows[id].copies != []
    ensures Run(calls[..n]).rows[id].size >= 1
    decreases n
  {
    hide Run;
    NoRun(calls[..0]);
    RunNext(calls, n - 1);
    var b := Run(calls[..n - 1]);
    if id in b.rows && b.rows[id].copies != [] {
      ChainSize(calls, n - 1, id);
    }
  }

  lemma NoDupInserted(a: seq<nat>, p: nat, b: seq<nat>)
    requires NoDup(a + b) && p !in a + b
    ensures NoDup(a + [p] + b)
  {
    var s, t := a + b, a + [p] + b;
    forall i, j | 0 <= i < j < |t|
      ensures t[i] != t[j]
    {
      assert i != |a| ==> t[i] == s[if i < |a| then i else i - 1];
      assert j != |a| ==> t[j] == s[if j < |a| then j else j - 1];
    }
  }

  lemma NoDupFront(p: nat, b: seq<nat>)
    requires NoDup(b) && p !in b
    ensures NoDup([p] + b)
  {
  }

  /** No place is there twice. */
  lemma {:induction false} TargetsDiffer(calls: seq<Call>, n: nat, id: Id)
    requires Distinct(calls) && n <= |calls| && id in Run(calls[..n]).rows
    ensures NoDup(Targets(Run(calls[..n]).rows[id]))
    decreases n
  {
    hide Run, Targets, NoDup, Accepts, Distinct, Step;
    NoRun(calls[..0]);
    RunNext(calls, n - 1);
    var b, c := Run(calls[..n - 1]), calls[n - 1];
    if id in b.rows {
      TargetsDiffer(calls, n - 1, id);
    }
    if c.Forwarding? && !Blank(c) {
      NewTarget(calls, n - 1);
    }
    StepDiffers(b, c, id);
  }

  lemma StepDiffers(b: Book, c: Call, id: Id)
    requires id in Step(b, c).rows && (id in b.rows ==> NoDup(Targets(b.rows[id])))
    requires c.Forwarding? && !Blank(c) ==> c.p !in Targets(RowFor(b, c))
    ensures NoDup(Targets(Step(b, c).rows[id]))
  {
    hide Targets, NoDup, Accepts;
    var row := RowFor(b, c);
    NoTarget(c.kind, c.size);
    NoneTwice();
    SameTargets(row, c.p, c.size);
    if c.Forwarding? && c.id == id && !Blank(c) {
      PlaceDiffers(row, c.p, c.own);
    }
  }

  lemma NoneTwice()
    ensures NoDup([])
  {
  }

  /** A new place in front of the chain or of the forwardings */
  lemma PlaceDiffers(row: Row, p: nat, own: bool)
    requires NoDup(Targets(row)) && p !in Targets(row)
    ensures NoDup(Targets(row.(copies := [p] + row.copies)))
    ensures NoDup(Targets(row.(forwards := [Forward(p, own)] + row.forwards)))
  {
    hide Targets, Plain, NoDup;
    MoreTargets(row, p, own);
    TargetsInTwo(row);
    NoDupFront(p, Targets(row));
    NoDupInserted(row.copies, p, Plain(row.forwards));
  }

  lemma TargetsInTwo(row: Row)
    ensures Targets(row) == row.copies + Plain(row.forwards)
  {
  }

  /** The place of a forwarding is not there yet. */
  lemma NewTarget(calls: seq<Call>, n: nat)
    requires Distinct(calls) && n < |calls| && calls[n].Forwarding? && !Blank(calls[n])
    ensures calls[n].p !in Targets(RowFor(Run(calls[..n]), calls[n]))
  {
    hide Run, Targets, Accepts;
    var b, c := Run(calls[..n]), calls[n];
    NoTarget(c.kind, c.size);
    if c.p in Targets(RowFor(b, c)) {
      var i := TargetFrom(calls, n, c.id, c.p);
    }
  }

  // ---------- what stays ----------

  /** What an accepted call has brought about, and later calls keep. */
  ghost predicate Noted(b: Book, c: Call) {
    !Blank(c) && c.p != 0 ==>
      && c.id in b.rows
      && match c
         case Lookup(id, p, _, _) => p in b.refOf && b.refOf[p] == id
         case Forwarding(id, p, _, n, own) =>
           b.rows[id].size == n && (if own then Forward(p, true) in b.rows[id].forwards else p in Targets(b.rows[id]))
         case Entering(id, p, _, n) => b.rows[id].ptr == p && b.rows[id].size == n
  }

  /** What no call takes back. */
  ghost predicate Grown(b: Book, b': Book) {
    && (forall a :: a in b.refOf ==> a in b'.refOf && b'.refOf[a] == b.refOf[a])
    && forall id :: id in b.rows ==> id in b'.rows && RowGrown(b.rows[id], b'.rows[id])
  }

  ghost predicate RowGrown(row: Row, row': Row) {
    && (row.ptr != 0 ==> row'.ptr == row.ptr && row'.size == row.size)
    && (Waiting(row) ==> row'.size == row.size)
    && (forall x :: x in Targets(row) ==> x in Targets(row'))
    && (forall f :: f in row.forwards ==> f in row'.forwards)
  }

  lemma RowGrows(row: Row, p: nat, own: bool, n: nat)
    ensures RowGrown(row, row.(refs := [p] + row.refs))
    ensures RowGrown(row, row.(copies := [p] + row.copies)) && p in Targets(row.(copies := [p] + row.copies))
    ensures var more := row.(forwards := [Forward(p, own)] + row.forwards);
      RowGrown(row, more) && Forward(p, own) in more.forwards && (!own ==> p in Targets(more))
    ensures row.ptr == 0 && (Waiting(row) ==> row.size == n) ==> RowGrown(row, row.(size := n, ptr := p))
  {
    hide Targets, Plain;
    SameTargets(row, p, n);
    forall x
      ensures x in Targets(row) || x == p ==> x in Targets(row.(copies := [p] + row.copies))
      ensures x in Targets(row) || (!own && x == p) ==>
        x in Targets(row.(forwards := [Forward(p, own)] + row.forwards))
    {
      AmongTargets(row, p, own, x);
    }
    assert ([Forward(p, own)] + row.forwards)[0] == Forward(p, own);
  }

  lemma StepNotes(b: Book, c: Call)
    requires Accepts(b, c)
    ensures Noted(Step(b, c), c)
  {
    hide Targets, RowGrown;
    RowGrows(RowFor(b, c), c.p, if c.Forwarding? then c.own else true, c.size);
  }

  lemma StepGrows(b: Book, c: Call)
    requires c.Lookup? && !Blank(c) ==> c.p !in b.refOf
    ensures Grown(b, Step(b, c))
  {
    hide Targets, RowGrown;
    RowGrows(RowFor(b, c), c.p, if c.Forwarding? then c.own else true, c.size);
    forall id | id in b.rows
      ensures id in Step(b, c).rows && RowGrown(b.rows[id], Step(b, c).rows[id])
    {
      SameGrown(b.rows[id]);
    }
  }

  lemma SameGrown(row: Row)
    ensures RowGrown(row, row)
  {
  }

  lemma NotedStays(b: Book, b': Book, c: Call)
    requires Noted(b, c) && Grown(b, b')
    ensures Noted(b', c)
  {
    hide Targets;
    if c.Forwarding? && !Blank(c) && !c.own {
      TargetWaits(b.rows[c.id], c.p);
    }
  }

  /** After a run, what its accepted calls have brought about is there. */
  lemma {:induction false} AllNoted(calls: seq<Call>, n: nat, i: nat)
    requires Distinct(calls) && i < n <= |calls| && Accepted(calls, i)
    ensures Noted(Run(calls[..n]), calls[i])
    decreases n
  {
    hide Run, Noted, Grown, Step, Accepts;
    var b, c := Run(calls[..n - 1]), calls[n - 1];
    RunNext(calls, n - 1);
    if i == n - 1 {
      StepNotes(b, c);
    } else {
      AllNoted(calls, n - 1, i);
      if c.Lookup? && !Blank(c) && c.p in b.refOf {
        var k := RefFrom(calls, n - 1, c.p);
      }
      StepGrows(b, c);
      NotedStays(b, Step(b, c), calls[i]);
    }
  }

  // ---------- how the places lie ----------

  /** An accepted entry of an object with an id */
  predicate Enters(calls: seq<Call>, j: nat) {
    Accepted(calls, j) && calls[j].Entering? && !Blank(calls[j])
  }

  /** An accepted lookup of something */
  predicate Looks(calls: seq<Call>, k: nat) {
    Accepted(calls, k) && calls[k].Lookup? && Writes(calls[k])
  }

  ghost predicate Copied(calls: seq<Call>, id: Id) {
    exists i :: 0 <= i < |calls| && Places(calls, i) && calls[i].id == id
  }

  /** The place of i is beside the object of j, or a part of it. */
  ghost predicate Fits(calls: seq<Call>, i: nat, j: nat)
    requires i < |calls| && j < |calls|
  {
    || Apart(calls[i].p, calls[i].size, calls[j].p, calls[j].size)
    || Within(calls[i].p, calls[i].size, calls[j].p, calls[j].size)
  }

  /** The places for copies lie in memory, one beside the other and beside the cells that are looked
      up; and the objects that are copied lie in memory, and around a place or beside it. */
  ghost predicate LaidOut(keys: set<nat>, calls: seq<Call>) {
    && (forall i :: 0 <= i < |calls| && Places(calls, i) ==> InMemory(keys, calls[i].p, calls[i].size))
    && (forall i, j :: 0 <= i < |calls| && 0 <= j < |calls| && i != j && Places(calls, i) && Places(calls, j) ==>
          Apart(calls[i].p, calls[i].size, calls[j].p, calls[j].size))
    && (forall i, k :: 0 <= i < |calls| && 0 <= k < |calls| && Places(calls, i) && Looks(calls, k) ==>
          !Inside(calls[k].p, calls[i].p, calls[i].size))
    && (forall j :: 0 <= j < |calls| && Enters(calls, j) && Copied(calls, calls[j].id) ==>
          && InMemory(keys, calls[j].p, calls[j].size)
          && forall i :: 0 <= i < |calls| && Places(calls, i) ==> Fits(calls, i, j))
  }

  lemma NoPlaces(keys: set<nat>, calls: seq<Call>)
    requires forall i :: 0 <= i < |calls| ==> calls[i].Forwarding? ==> calls[i].own
    ensures LaidOut(keys, calls)
  {
  }

  lemma WholeRun(calls: seq<Call>)
    ensures calls[..|calls|] == calls
  {
  }

  lemma TargetCall(calls: seq<Call>, id: Id, k: nat) returns (i: nat)
    requires id in Run(calls).rows && k < |Targets(Run(calls).rows[id])|
    ensures i < |calls| && Places(calls, i) && calls[i].id == id
    ensures calls[i].p == Targets(Run(calls).rows[id])[k] && calls[i].size == Run(calls).rows[id].size
  {
    hide Run, Targets;
    WholeRun(calls);
    i := TargetFrom(calls, |calls|, id, Targets(Run(calls).rows[id])[k]);
  }

  lemma LayoutApart(keys: set<nat>, calls: seq<Call>, id: Id, other: Id)
    requires Distinct(calls) && LaidOut(keys, calls) && id in Run(calls).rows && other in Run(calls).rows
    ensures TargetsApart(Run(calls).rows[id], Run(calls).rows[other], id == other)
  {
    hide Run, Targets, Apart, InMemory, Inside, Fits, Copied;
    var r, s := Run(calls).rows[id], Run(calls).rows[other];
    WholeRun(calls);
    TargetsDiffer(calls, |calls|, id);
    forall i, j | 0 <= i < |Targets(r)| && 0 <= j < |Targets(s)| && !(id == other && i == j)
      ensures Apart(Targets(r)[i], r.size, Targets(s)[j], s.size)
    {
      var a := TargetCall(calls, id, i);
      var b := TargetCall(calls, other, j);
    }
  }

  lemma LayoutSource(keys: set<nat>, calls: seq<Call>, id: Id, other: Id)
    requires LaidOut(keys, calls) && id in Run(calls).rows && other in Run(calls).rows
    ensures TargetSource(Run(calls).rows[id], Run(calls).rows[other])
  {
    hide Run, Targets, Apart, Within, InMemory, Inside;
    var r, s := Run(calls).rows[id], Run(calls).rows[other];
    forall i | 0 <= i < |Targets(r)| && s.ptr != 0 && Targets(s) != []
      ensures Apart(Targets(r)[i], r.size, s.ptr, s.size) || Within(Targets(r)[i], r.size, s.ptr, s.size)
    {
      WholeRun(calls);
      var a := TargetCall(calls, id, i);
      var b := TargetCall(calls, other, 0);
      var j := ObjectFrom(calls, |calls|, other);
      assert Enters(calls, j) && Copied(calls, calls[j].id);
      assert Fits(calls, a, j);
    }
  }

  lemma LayoutPlaces(keys: set<nat>, calls: seq<Call>, id: Id)
    requires Distinct(calls) && LaidOut(keys, calls) && id in Run(calls).rows
    ensures IdRef.Places(keys, Run(calls).rows[id])
  {
    hide Run, Targets, Apart, Within, InMemory, Inside, Fits;
    var r := Run(calls).rows[id];
    WholeRun(calls);
    if r.copies != [] {
      ChainSize(calls, |calls|, id);
    }
    LayoutApart(keys, calls, id, id);
    forall i | 0 <= i < |Targets(r)|
      ensures InMemory(keys, Targets(r)[i], r.size)
    {
      var a := TargetCall(calls, id, i);
    }
    if r.ptr != 0 && Targets(r) != [] {
      var b := TargetCall(calls, id, 0);
      var j := ObjectFrom(calls, |calls|, id);
      assert Enters(calls, j) && Copied(calls, calls[j].id);
    }
  }

  /** What soap_resolve needs of the layout follows from the calls. */
  lemma LayoutOf(keys: set<nat>, calls: seq<Call>)
    requires Distinct(calls) && LaidOut(keys, calls)
    ensures Layout(keys, Run(calls).rows, Run(calls).refOf)
  {
    hide Run, Targets, Apart, Within, InMemory, Inside, Fits, TargetSource, TargetsApart, IdRef.Places;
    var b := Run(calls);
    forall id | id in b.rows
      ensures IdRef.Places(keys, b.rows[id])
    {
      LayoutPlaces(keys, calls, id);
    }
    forall id, other | id in b.rows && other in b.rows
      ensures TargetSource(b.rows[id], b.rows[other]) && TargetsApart(b.rows[id], b.rows[other], id == other)
    {
      LayoutSource(keys, calls, id, other);
      LayoutApart(keys, calls, id, other);
    }
    forall a, id, i | a in b.refOf && id in b.rows && 0 <= i < |Targets(b.rows[id])|
      ensures !Inside(a, Targets(b.rows[id])[i], b.rows[id].size)
    {
      WholeRun(calls);
      var k := RefFrom(calls, |calls|, a);
      var t := TargetCall(calls, id, i);
    }
  }

  // ---------- what blocks ----------

  /** An accepted forwarding, by plain copying or by a function of the caller */
  predicate Forwards(calls: seq<Call>, i: nat) {
    Accepted(calls, i) && calls[i].Forwarding? && !Blank(calls[i])
  }

  /** The place x waits for the object of this row. */
  ghost predicate Placed(row: Row, x: nat) {
    x in row.copies || exists i :: 0 <= i < |row.forwards| && row.forwards[i].ptr == x
  }

  lemma PlacedNext(row: Row, p: nat, own: bool, x: nat)
    ensures Placed(row.(copies := [p] + row.copies), x) <==> x == p || Placed(row, x)
    ensures Placed(row.(forwards := [Forward(p, own)] + row.forwards), x) <==> x == p || Placed(row, x)
  {
    var f := [Forward(p, own)] + row.forwards;
    assert f[0].ptr == p && forall i :: 0 <= i < |row.forwards| ==> f[i + 1] == row.forwards[i];
  }

  /** A place that waits for an id was forwarded to it. */
  lemma {:induction false} PlaceFrom(calls: seq<Call>, n: nat, id: Id, x: nat) returns (k: nat)
    requires n <= |calls| && id in Run(calls[..n]).rows && Placed(Run(calls[..n]).rows[id], x)
    ensures k < n && Forwards(calls, k) && calls[k].id == id && calls[k].p == x
    decreases n
  {
    hide Run, Accepts;
    NoRun(calls[..0]);
    k := n - 1;
    RunNext(calls, k);
    var b, c := Run(calls[..k]), calls[k];
    var row := RowFor(b, c);
    PlacedNext(row, c.p, if c.Forwarding? then c.own else true, x);
    hide Placed;
    NonePlaced(c.kind, c.size, x);
    OtherPlaced(row, c.p, c.size, x);
    if !(Forwards(calls, k) && c.id == id && c.p == x) {
      k := PlaceFrom(calls, k, id, x);
    }
  }

  lemma NonePlaced(kind: int, size: nat, x: nat)
    ensures !Placed(Row(kind, size, 0, [], [], []), x)
  {
  }

  lemma OtherPlaced(row: Row, p: nat, n: nat, x: nat)
    ensures Placed(row.(refs := [p] + row.refs), x) <==> Placed(row, x)
    ensures Placed(row.(size := n, ptr := p), x) <==> Placed(row, x)
  {
  }

  lemma NotedPlaced(b: Book, c: Call)
    requires Noted(b, c) && c.Forwarding? && !Blank(c)
    ensures c.id in b.rows && Placed(b.rows[c.id], c.p) && Waiting(b.rows[c.id])
  {
    var row := b.rows[c.id];
    if c.own {
      var i :| 0 <= i < |row.forwards| && row.forwards[i] == Forward(c.p, true);
    } else {
      TargetPlaced(row, c.p);
    }
  }

  lemma TargetPlaced(row: Row, x: nat)
    requires x in Targets(row)
    ensures Placed(row, x) && Waiting(row)
  {
    var i :| 0 <= i < |Targets(row)| && Targets(row)[i] == x;
    if i >= |row.copies| {
      var j := PlainIn(row.forwards, i - |row.copies|);
    }
  }

  lemma WaitsPlaced(row: Row, start: nat, end: nat)
    ensures Waits(row, start, end) <==> exists x: nat :: Placed(row, x) && start <= x < end
  {
    if i :| 0 <= i < |row.copies| && start <= row.copies[i] < end {
      assert Placed(row, row.copies[i]);
    }
    if i :| 0 <= i < |row.forwards| && start <= row.forwards[i].ptr < end {
      assert Placed(row, row.forwards[i].ptr);
    }
  }

  /** Something in the range waits for an id exactly if it was forwarded to it. */
  lemma WaitsCalls(calls: seq<Call>, id: Id, start: nat, end: nat)
    requires Distinct(calls) && id in Run(calls).rows
    ensures Waits(Run(calls).rows[id], start, end) <==>
      exists k :: 0 <= k < |calls| && Forwards(calls, k) && calls[k].id == id && start <= calls[k].p < end
  {
    hide Run, Accepted, Waits, Placed;
    WholeRun(calls);
    WaitsPlaced(Run(calls).rows[id], start, end);
    if x: nat :| Placed(Run(calls).rows[id], x) && start <= x < end {
      var k := PlaceFrom(calls, |calls|, id, x);
    }
    if k :| 0 <= k < |calls| && Forwards(calls, k) && calls[k].id == id && start <= calls[k].p < end {
      AllNoted(calls, |calls|, k);
      NotedPlaced(Run(calls), calls[k]);
    }
  }

  lemma WaitingCalls(calls: seq<Call>, id: Id)
    requires Distinct(calls)
    ensures id in Run(calls).rows && Waiting(Run(calls).rows[id]) <==>
      exists k :: 0 <= k < |calls| && Forwards(calls, k) && calls[k].id == id
  {
    hide Run, Accepted;
    WholeRun(calls);
    if id in Run(calls).rows && Waiting(Run(calls).rows[id]) {
      var row := Run(calls).rows[id];
      var x := if row.copies != [] then row.copies[0] else row.forwards[0].ptr;
      assert Placed(row, x);
      var k := PlaceFrom(calls, |calls|, id, x);
    }
    if k :| 0 <= k < |calls| && Forwards(calls, k) && calls[k].id == id {
      AllNoted(calls, |calls|, k);
      NotedPlaced(Run(calls), calls[k]);
    }
  }

  /** Each of these ids is forwarded to a place, and if it is entered, its object has a place in it
      that waits for one of them. */
  ghost predicate BlockEachOther(calls: seq<Call>, ids: set<Id>) {
    forall id :: id in ids ==>
      && (exists k :: 0 <= k < |calls| && Forwards(calls, k) && calls[k].id == id)
      && forall j :: 0 <= j < |calls| && Enters(calls, j) && calls[j].id == id ==> HoldsPlace(calls, j, ids)
  }

  /** A place for one of the ids lies in the object of the entry j. */
  ghost predicate HoldsPlace(calls: seq<Call>, j: nat, ids: set<Id>)
    requires j < |calls|
  {
    exists k :: 0 <= k < |calls| && Forwards(calls, k) && calls[k].id in ids &&
      calls[j].p <= calls[k].p < calls[j].p + calls[j].size
  }

  lemma BlockingHolds(calls: seq<Call>, j: nat, ids: set<Id>)
    requires Distinct(calls) && j < |calls|
    ensures Blocking(Run(calls).rows, ids, calls[j].p, calls[j].p + calls[j].size) <==> HoldsPlace(calls, j, ids)
  {
    hide Run, Forwards, Waits, Distinct, HoldsPlace;
    var start, end := calls[j].p, calls[j].p + calls[j].size;
    var rows := Run(calls).rows;
    if other :| other in ids && other in rows && Waits(rows[other], start, end) {
      WaitsCalls(calls, other, start, end);
      var k :| 0 <= k < |calls| && Forwards(calls, k) && calls[k].id == other && start <= calls[k].p < end;
      PlaceHeld(calls, j, ids, k);
    }
    if HoldsPlace(calls, j, ids) {
      var k := HeldPlace(calls, j, ids);
      WaitingCalls(calls, calls[k].id);
      WaitsCalls(calls, calls[k].id, start, end);
    }
  }

  lemma PlaceHeld(calls: seq<Call>, j: nat, ids: set<Id>, k: nat)
    requires j < |calls| && k < |calls| && Forwards(calls, k) && calls[k].id in ids
    requires calls[j].p <= calls[k].p < calls[j].p + calls[j].size
    ensures HoldsPlace(calls, j, ids)
  {
  }

  lemma HeldPlace(calls: seq<Call>, j: nat, ids: set<Id>) returns (k: nat)
    requires j < |calls| && HoldsPlace(calls, j, ids)
    ensures k < |calls| && Forwards(calls, k) && calls[k].id in ids
    ensures calls[j].p <= calls[k].p < calls[j].p + calls[j].size
  {
    hide Forwards;
    k :| 0 <= k < |calls| && Forwards(calls, k) && calls[k].id in ids &&
         calls[j].p <= calls[k].p < calls[j].p + calls[j].size;
  }

  /** The sets of ids that block each other, by the calls */
  lemma BlockedCalls(keys: set<nat>, calls: seq<Call>, ids: set<Id>)
    requires Fit(keys, calls)
    ensures Blocked(Run(calls).rows, ids) <==> BlockEachOther(calls, ids)
  {
    hide Run, Accepted, Forwards, Waits, Blocking, HoldsPlace, Waiting;
    var b := Run(calls);
    WholeRun(calls);
    forall id | id in ids
      ensures id in b.rows && Waiting(b.rows[id]) <==>
        exists k :: 0 <= k < |calls| && Forwards(calls, k) && calls[k].id == id
      ensures id in b.rows ==>
        ((b.rows[id].ptr != 0 ==> Blocking(b.rows, ids, b.rows[id].ptr, b.rows[id].ptr + b.rows[id].size)) <==>
         forall j :: 0 <= j < |calls| && Enters(calls, j) && calls[j].id == id ==> HoldsPlace(calls, j, ids))
    {
      WaitingCalls(calls, id);
      if id in b.rows {
        forall j | 0 <= j < |calls| && Enters(calls, j) && calls[j].id == id
          ensures b.rows[id].ptr == calls[j].p != 0 && b.rows[id].size == calls[j].size
          ensures HoldsPlace(calls, j, ids) <==> Blocking(b.rows, ids, calls[j].p, calls[j].p + calls[j].size)
        {
          AllNoted(calls, |calls|, j);
          BlockingHolds(calls, j, ids);
        }
        if b.rows[id].ptr != 0 {
          var j := ObjectFrom(calls, |calls|, id);
        }
      }
    }
  }

  // ---------- runs on a table ----------

  /** One call.  Only the cell of an accepted lookup or of a place in the chain is written to. */
  method Do(s: Soap, c: Call) returns (ok: bool)
    requires s.Valid() && (c.Entering? ==> c.p != 0)
    requires Writes(c) ==> c.p in s.cells && c.p !in s.refOf && c.p !in s.copyOf
    modifies s, s.iht, s.table.Values
    ensures s.Valid() && fresh(s.table.Values - old(s.table.Values))
    ensures ok == Accepts(old(Book(s.rows, s.refOf)), c)
    ensures Book(s.rows, s.refOf) == Step(old(Book(s.rows, s.refOf)), c)
    ensures Writes(c) ==> s.refOf.Keys + s.copyOf.Keys <= old(s.refOf).Keys + old(s.copyOf).Keys + {c.p}
    ensures !Writes(c) ==> s.refOf == old(s.refOf) && s.copyOf == old(s.copyOf)
    ensures s.cells.Keys == old(s.cells).Keys && SameBut(old(s.cells), s.cells, c, ok)
  {
    hide Soap.Valid, Hash, Targets;
    var status;
    var r;
    match c {
      case Lookup(id, p, kind, n) =>
        r, status := s.IdLookup(id, p, kind, n);
      case Forwarding(id, p, kind, n, own) =>
        r, status := s.IdForward(id, p, kind, n, own);
      case Entering(id, p, kind, n) =>
        r, status := s.IdEnter(id, p, kind, n, p);
    }
    ok := status == Ok;
  }

  /** The call may have changed its own cell, but no other. */
  ghost predicate SameBut(before: Cells, cells: Cells, c: Call, ok: bool) {
    && cells.Keys == before.Keys
    && forall x :: x in cells && !(ok && Writes(c) && (c.Lookup? || Chained(c)) && x == c.p) ==> cells[x] == before[x]
  }

  /** No accepted lookup or forwarding is for this word. */
  ghost predicate Untouched(calls: seq<Call>, x: nat) {
    forall i :: 0 <= i < |calls| && Accepted(calls, i) && Writes(calls[i]) ==>
      match calls[i]
      case Lookup(_, p, _, _) => x != p
      case Forwarding(_, p, _, n, own) => own || !Inside(x, p, n)
      case Entering(_, _, _, _) => true
  }

  /** Lookups, forwardings and entries in any order, on a new table */
  method Perform(cells: Cells, calls: seq<Call>) returns (s: Soap, accepted: seq<bool>)
    requires Fit(cells.Keys, calls)
    ensures fresh(s) && fresh(s.iht) && fresh(s.table.Values) && s.Valid()
    ensures Book(s.rows, s.refOf) == Run(calls)
    ensures |accepted| == |calls| && forall i :: 0 <= i < |calls| ==> accepted[i] == Accepted(calls, i)
    ensures s.cells.Keys == cells.Keys && forall x :: x in cells && Untouched(calls, x) ==> s.cells[x] == cells[x]
  {
    hide Soap.Valid, Step, Accepts, Untouched, SameBut, Run;
    s := new Soap(cells);
    accepted := [];
    NoRun(calls[..0]);
    for n := 0 to |calls|
      invariant fresh(s) && fresh(s.iht) && fresh(s.table.Values) && s.Valid()
      invariant Book(s.rows, s.refOf) == Run(calls[..n])
      invariant |accepted| == n && forall i :: 0 <= i < n ==> accepted[i] == Accepted(calls, i)
      invariant s.cells.Keys == cells.Keys
      invariant forall x :: x in cells && Untouched(calls, x) ==> s.cells[x] == cells[x]
      invariant forall j :: n <= j < |calls| && Writes(calls[j]) ==> calls[j].p !in s.refOf && calls[j].p !in s.copyOf
    {
      RunNext(calls, n);
      ghost var now := s.cells;
      var ok := Do(s, calls[n]);
      accepted := accepted + [ok];
      forall x | x in cells && Untouched(calls, x)
        ensures s.cells[x] == now[x]
      {
        UntouchedBy(calls, n, x, now, s.cells, ok);
      }
    }
    WholeRun(calls);
  }

  lemma UntouchedBy(calls: seq<Call>, n: nat, x: nat, before: Cells, cells: Cells, ok: bool)
    requires n < |calls| && Untouched(calls, x) && SameBut(before, cells, calls[n], ok) && ok == Accepted(calls, n)
    requires x in cells
    ensures x in before && cells[x] == before[x]
  {
    hide Accepted;
  }

  /** A local id is asked for, and never entered. */
  ghost predicate Missing(calls: seq<Call>) {
    exists i :: 0 <= i < |calls| && MissingAt(calls, i)
  }

  ghost predicate MissingAt(calls: seq<Call>, i: nat) {
    && Accepted(calls, i) && !Blank(calls[i]) && calls[i].id[0] == HASH
    && forall j :: 0 <= j < |calls| && Enters(calls, j) ==> calls[j].id != calls[i].id
  }

  lemma MissingUndefined(keys: set<nat>, calls: seq<Call>)
    requires Fit(keys, calls)
    ensures Missing(calls) <==> exists id :: id in Run(calls).rows && Undefined(id, Run(calls).rows[id])
  {
    hide Run, Accepted;
    var b := Run(calls);
    WholeRun(calls);
    if id :| id in b.rows && Undefined(id, b.rows[id]) {
      var i := RowFrom(calls, |calls|, id);
      forall j | 0 <= j < |calls| && Enters(calls, j)
        ensures calls[j].id != id
      {
        AllNoted(calls, |calls|, j);
      }
      assert MissingAt(calls, i);
    }
    if i :| 0 <= i < |calls| && MissingAt(calls, i) {
      AllNoted(calls, |calls|, i);
      var id := calls[i].id;
      if b.rows[id].ptr != 0 {
        var j := ObjectFrom(calls, |calls|, id);
      }
      assert Undefined(id, b.rows[id]);
    }
  }

  /** A run and soap_resolve.  It fails exactly if a local id is asked for and never entered.  Otherwise
      the ids that still wait are the greatest set of forwarded ids each of which has no object, or one
      with a place in it that waits for one of them; a cell that was looked up holds the address its id
      was entered with, be it before or after; a place holds what the object holds, unless its id still
      waits; and no other word has changed. */
  method RunAndResolve(cells: Cells, calls: seq<Call>)
    returns (s: Soap, accepted: seq<bool>, status: Status, ghost waiting: set<Id>)
    requires Fit(cells.Keys, calls) && LaidOut(cells.Keys, calls)
    ensures waiting == WaitingIds(s.rows)
    ensures |accepted| == |calls| && forall i :: 0 <= i < |calls| ==> accepted[i] == Accepted(calls, i)
    ensures status == if Missing(calls) then MissingId else Ok
    ensures status == Ok ==> forall ids: set<Id> :: BlockEachOther(calls, ids) ==> ids <= waiting
    ensures status == Ok ==> forall id :: id in waiting ==>
      && (exists k :: 0 <= k < |calls| && Forwards(calls, k) && calls[k].id == id)
      && forall j :: 0 <= j < |calls| && Enters(calls, j) && calls[j].id == id ==>
        exists k :: 0 <= k < |calls| && Forwards(calls, k) && calls[k].id in waiting &&
                    calls[j].p <= calls[k].p < calls[j].p + calls[j].size
    ensures status == Ok ==> s.cells.Keys == cells.Keys
    ensures status == Ok ==> forall i, j :: 0 <= i < |calls| && 0 <= j < |calls| ==>
      Looks(calls, i) && Enters(calls, j) && calls[i].id == calls[j].id ==>
        calls[i].p in cells && s.cells[calls[i].p] == calls[j].p
    ensures status == Ok ==> forall i, j :: 0 <= i < |calls| && 0 <= j < |calls| ==>
      Places(calls, i) && Enters(calls, j) && calls[i].id == calls[j].id && calls[i].id !in waiting ==>
        calls[i].size == calls[j].size && Same(s.cells, calls[i].p, s.cells, calls[j].p, calls[j].size)
    ensures status == Ok ==> forall x :: x in cells && s.cells[x] != cells[x] ==>
      exists i :: 0 <= i < |calls| &&
                  ((Looks(calls, i) && x == calls[i].p) ||
                   (Places(calls, i) && calls[i].p <= x < calls[i].p + calls[i].size))
  {
    hide Soap.Valid, GreatestBlocked, IdRef.Settled, Layout, Same, Free, Run, Missing, LaidOut, Undefined,
         Enters, BlockEachOther, Forwards, Looks, Places, Untouched, Accepted;
    s, accepted := Perform(cells, calls);
    ghost var now := s.cells;
    LayoutOf(cells.Keys, calls);
    MissingUndefined(cells.Keys, calls);
    status := s.Resolve();
    waiting := WaitingIds(s.rows);
    if status == Ok {
      StillWaiting(cells.Keys, calls, waiting);
      LookupsAnswered(cells.Keys, calls, s.cells);
      PlacesFilled(cells.Keys, calls, s.cells, waiting);
      OthersSame(calls, cells, now, s.cells, s.rows);
    }
  }

  /** Every cell with an object holds its address. */
  ghost predicate RefsAnswered(b: Book, cells: Cells) {
    forall a :: a in b.refOf && b.refOf[a] in b.rows && b.rows[b.refOf[a]].ptr != 0 ==>
      a in cells && cells[a] == b.rows[b.refOf[a]].ptr
  }

  /** Every place holds what its object holds, unless its id still waits. */
  ghost predicate CopiesMade(b: Book, cells: Cells, waiting: set<Id>) {
    forall id, k :: id in b.rows && id !in waiting && 0 <= k < |Targets(b.rows[id])| ==>
      Same(cells, Targets(b.rows[id])[k], cells, b.rows[id].ptr, b.rows[id].size)
  }

  lemma LookupsAnswered(keys: set<nat>, calls: seq<Call>, cells: Cells)
    requires Fit(keys, calls) && RefsAnswered(Run(calls), cells)
    ensures forall i, j :: 0 <= i < |calls| && 0 <= j < |calls| ==>
      Looks(calls, i) && Enters(calls, j) && calls[i].id == calls[j].id ==>
        calls[i].p in cells && cells[calls[i].p] == calls[j].p
  {
    hide Run, RefsAnswered, Looks, Enters;
    forall i, j | 0 <= i < |calls| && 0 <= j < |calls| && Looks(calls, i) && Enters(calls, j) &&
                  calls[i].id == calls[j].id
      ensures calls[i].p in cells && cells[calls[i].p] == calls[j].p
    {
      LookupAnswered(keys, calls, i, j, cells);
    }
  }

  lemma PlacesFilled(keys: set<nat>, calls: seq<Call>, cells: Cells, waiting: set<Id>)
    requires Fit(keys, calls) && CopiesMade(Run(calls), cells, waiting)
    ensures forall i, j :: 0 <= i < |calls| && 0 <= j < |calls| ==>
      Places(calls, i) && Enters(calls, j) && calls[i].id == calls[j].id && calls[i].id !in waiting ==>
        calls[i].size == calls[j].size && Same(cells, calls[i].p, cells, calls[j].p, calls[j].size)
  {
    hide Run, CopiesMade, Fit, Enters, Places, Same;
    forall i, j | 0 <= i < |calls| && 0 <= j < |calls| && Places(calls, i) && Enters(calls, j) &&
                  calls[i].id == calls[j].id && calls[i].id !in waiting
      ensures calls[i].size == calls[j].size && Same(cells, calls[i].p, cells, calls[j].p, calls[j].size)
    {
      CopyMade(keys, calls, i, j, cells, waiting);
    }
  }

  lemma LookupAnswered(keys: set<nat>, calls: seq<Call>, i: nat, j: nat, cells: Cells)
    requires Fit(keys, calls) && i < |calls| && j < |calls| && Looks(calls, i) && Enters(calls, j)
    requires calls[i].id == calls[j].id && RefsAnswered(Run(calls), cells)
    ensures calls[i].p in cells && cells[calls[i].p] == calls[j].p
  {
    hide Run, Accepted;
    WholeRun(calls);
    AllNoted(calls, |calls|, i);
    AllNoted(calls, |calls|, j);
  }

  lemma CopyMade(keys: set<nat>, calls: seq<Call>, i: nat, j: nat, cells: Cells, waiting: set<Id>)
    requires Fit(keys, calls) && i < |calls| && j < |calls| && Places(calls, i) && Enters(calls, j)
    requires calls[i].id == calls[j].id && calls[i].id !in waiting && CopiesMade(Run(calls), cells, waiting)
    ensures calls[i].size == calls[j].size && Same(cells, calls[i].p, cells, calls[j].p, calls[j].size)
  {
    hide Run, Accepted, Targets, Same, Places, Enters, CopiesMade, Fit;
    var k := TargetOf(keys, calls, i);
    ObjectOf(keys, calls, j);
    PlaceSame(Run(calls), cells, waiting, calls[i].id, k);
  }

  lemma PlaceSame(b: Book, cells: Cells, waiting: set<Id>, id: Id, k: nat)
    requires CopiesMade(b, cells, waiting) && id in b.rows && id !in waiting && k < |Targets(b.rows[id])|
    ensures Same(cells, Targets(b.rows[id])[k], cells, b.rows[id].ptr, b.rows[id].size)
  {
  }

  lemma TargetOf(keys: set<nat>, calls: seq<Call>, i: nat) returns (k: nat)
    requires Fit(keys, calls) && i < |calls| && Places(calls, i)
    ensures var id := calls[i].id;
      && id in Run(calls).rows && k < |Targets(Run(calls).rows[id])| && Targets(Run(calls).rows[id])[k] == calls[i].p
      && Run(calls).rows[id].size == calls[i].size
  {
    hide Run, Accepted, Targets;
    WholeRun(calls);
    AllNoted(calls, |calls|, i);
    k :| 0 <= k < |Targets(Run(calls).rows[calls[i].id])| && Targets(Run(calls).rows[calls[i].id])[k] == calls[i].p;
  }

  lemma ObjectOf(keys: set<nat>, calls: seq<Call>, j: nat)
    requires Fit(keys, calls) && j < |calls| && Enters(calls, j)
    ensures var id := calls[j].id;
      id in Run(calls).rows && Run(calls).rows[id].ptr == calls[j].p && Run(calls).rows[id].size == calls[j].size
  {
    hide Run, Accepted;
    WholeRun(calls);
    AllNoted(calls, |calls|, j);
  }

  /** Two ranges are the same word by word. */
  lemma SameAt(cells: Cells, a: nat, other: Cells, b: nat, n: nat, x: nat)
    requires Same(cells, a, other, b, n) && a <= x < a + n
    ensures x in cells && b + (x - a) in other && cells[x] == other[b + (x - a)]
  {
    assert Inside(x, a, n);
  }

  /** A word that has changed is a cell that was looked up, or lies in a place. */
  lemma OthersSame(calls: seq<Call>, before: Cells, now: Cells, cells: Cells, rows: map<Id, Row>)
    requires now.Keys == before.Keys && cells.Keys == now.Keys
    requires forall x :: x in before && Untouched(calls, x) ==> now[x] == before[x]
    requires forall x :: x in cells && x !in Run(calls).refOf && Free(Run(calls).rows, rows, x) ==> cells[x] == now[x]
    ensures forall x :: x in before && cells[x] != before[x] ==>
      exists i :: 0 <= i < |calls| &&
                  ((Looks(calls, i) && x == calls[i].p) ||
                   (Places(calls, i) && calls[i].p <= x < calls[i].p + calls[i].size))
  {
    hide Run, Free, Accepted;
    forall x | x in before && cells[x] != before[x]
      ensures exists i :: 0 <= i < |calls| &&
                          ((Looks(calls, i) && x == calls[i].p) ||
                           (Places(calls, i) && calls[i].p <= x < calls[i].p + calls[i].size))
    {
      TouchedBy(calls, x);
      if Untouched(calls, x) {
        UntouchedFree(calls, rows, x);
      }
    }
  }

  lemma TouchedBy(calls: seq<Call>, x: nat)
    ensures Untouched(calls, x) || exists i :: 0 <= i < |calls| &&
                                               ((Looks(calls, i) && x == calls[i].p) ||
                                                (Places(calls, i) && calls[i].p <= x < calls[i].p + calls[i].size))
  {
    hide Accepted;
  }

  /** No object is entered twice. */
  lemma EnteredOnce(calls: seq<Call>, i: nat, j: nat)
    requires Distinct(calls) && i < j < |calls| && Enters(calls, i) && Enters(calls, j) && calls[i].p != 0
    ensures calls[i].id != calls[j].id
  {
    hide Run;
    var front := calls[..j];
    assert forall k :: 0 <= k < j ==> front[..k] == calls[..k] && front[k] == calls[k];
    WholeRun(front);
    AllNoted(front, j, i);
  }

  /** Which ids still wait, by the calls */
  lemma StillWaiting(keys: set<nat>, calls: seq<Call>, waiting: set<Id>)
    requires Fit(keys, calls) && GreatestBlocked(Run(calls).rows, waiting)
    ensures forall ids: set<Id> :: BlockEachOther(calls, ids) ==> ids <= waiting
    ensures forall id :: id in waiting ==>
      && (exists k :: 0 <= k < |calls| && Forwards(calls, k) && calls[k].id == id)
      && forall j :: 0 <= j < |calls| && Enters(calls, j) && calls[j].id == id ==>
        exists k :: 0 <= k < |calls| && Forwards(calls, k) && calls[k].id in waiting &&
                    calls[j].p <= calls[k].p < calls[j].p + calls[j].size
  {
    hide Run, Blocked, Fit, Forwards, Enters;
    BlockedCalls(keys, calls, waiting);
    forall ids: set<Id> | BlockEachOther(calls, ids)
      ensures ids <= waiting
    {
      BlockedCalls(keys, calls, ids);
    }
  }

  lemma UntouchedFree(calls: seq<Call>, rows: map<Id, Row>, x: nat)
    requires Untouched(calls, x)
    ensures x !in Run(calls).refOf && Free(Run(calls).rows, rows, x)
  {
    hide Run, Targets, Inside, Accepted;
    WholeRun(calls);
    var b := Run(calls);
    if x in b.refOf {
      var i := RefFrom(calls, |calls|, x);
    }
    forall id, k | id in b.rows && id in rows && !Waiting(rows[id]) && 0 <= k < |Targets(b.rows[id])|
      ensures !Inside(x, Targets(b.rows[id])[k], b.rows[id].size)
    {
      var i := TargetCall(calls, id, k);
    }
  }

  /** The same without places for copies: nothing is asked of the layout, and nothing still waits. */
  method ResolveReferences(cells: Cells, calls: seq<Call>) returns (s: Soap, accepted: seq<bool>, status: Status)
    requires Fit(cells.Keys, calls) && forall i :: 0 <= i < |calls| ==> !calls[i].Forwarding?
    ensures |accepted| == |calls| && forall i :: 0 <= i < |calls| ==> accepted[i] == Accepted(calls, i)
    ensures status == if Missing(calls) then MissingId else Ok
    ensures status == Ok ==> s.cells.Keys == cells.Keys && WaitingIds(s.rows) == {}
    ensures status == Ok ==> forall i, j :: 0 <= i < |calls| && 0 <= j < |calls| ==>
      Looks(calls, i) && Enters(calls, j) && calls[i].id == calls[j].id ==>
        calls[i].p in cells && s.cells[calls[i].p] == calls[j].p
    ensures status == Ok ==> forall x :: x in cells && s.cells[x] != cells[x] ==>
      exists i :: 0 <= i < |calls| && Looks(calls, i) && x == calls[i].p
  {
    hide Soap.Valid, Run, Missing, LaidOut, Accepts, BlockEachOther;
    NoPlaces(cells.Keys, calls);
    ghost var waiting;
    s, accepted, status, waiting := RunAndResolve(cells, calls);
    if status == Ok {
      Nobody(waiting);
    }
  }

  lemma Nobody(ids: set<Id>)
    requires forall id :: id !in ids
    ensures ids == {}
  {
  }

  /** When every id that is forwarded is entered, and no place lies in an object that is entered, all
      places get what their objects hold, in whatever order the calls were made. */
  method ResolveBeside(cells: Cells, calls: seq<Call>) returns (s: Soap, accepted: seq<bool>, status: Status)
    requires Fit(cells.Keys, calls) && LaidOut(cells.Keys, calls)
    requires AllEntered(calls) && AllBeside(calls)
    ensures |accepted| == |calls| && forall i :: 0 <= i < |calls| ==> accepted[i] == Accepted(calls, i)
    ensures status == if Missing(calls) then MissingId else Ok
    ensures status == Ok ==> s.cells.Keys == cells.Keys && WaitingIds(s.rows) == {}
    ensures status == Ok ==> forall i, j :: 0 <= i < |calls| && 0 <= j < |calls| ==>
      Looks(calls, i) && Enters(calls, j) && calls[i].id == calls[j].id ==>
        calls[i].p in cells && s.cells[calls[i].p] == calls[j].p
    ensures status == Ok ==> forall i, j :: 0 <= i < |calls| && 0 <= j < |calls| ==>
      Places(calls, i) && Enters(calls, j) && calls[i].id == calls[j].id ==>
        calls[i].size == calls[j].size && Same(s.cells, calls[i].p, s.cells, calls[j].p, calls[j].size)
    ensures status == Ok ==> forall x :: x in cells && s.cells[x] != cells[x] ==>
      exists i :: 0 <= i < |calls| &&
                  ((Looks(calls, i) && x == calls[i].p) ||
                   (Places(calls, i) && calls[i].p <= x < calls[i].p + calls[i].size))
  {
    hide Soap.Valid, Run, Missing, LaidOut, Accepted, Enters, BlockEachOther, AllEntered, AllBeside, Places;
    ghost var waiting;
    s, accepted, status, waiting := RunAndResolve(cells, calls);
    if status == Ok {
      NoneWaits(calls, waiting);
    }
  }

  /** Every id that is forwarded is entered, before or after. */
  ghost predicate AllEntered(calls: seq<Call>) {
    forall i :: 0 <= i < |calls| && Forwards(calls, i) ==>
      exists j :: 0 <= j < |calls| && Enters(calls, j) && calls[j].id == calls[i].id
  }

  /** No place lies in an object; right behind it there may be one. */
  ghost predicate AllBeside(calls: seq<Call>) {
    forall i, j :: 0 <= i < |calls| && 0 <= j < |calls| && Forwards(calls, i) && Enters(calls, j) ==>
      calls[i].p < calls[j].p || calls[i].p >= calls[j].p + calls[j].size
  }

  lemma NoneWaits(calls: seq<Call>, waiting: set<Id>)
    requires AllEntered(calls) && AllBeside(calls)
    requires forall id :: id in waiting ==>
      && (exists k :: 0 <= k < |calls| && Forwards(calls, k) && calls[k].id == id)
      && forall j :: 0 <= j < |calls| && Enters(calls, j) && calls[j].id == id ==>
        exists k :: 0 <= k < |calls| && Forwards(calls, k) && calls[k].id in waiting &&
                    calls[j].p <= calls[k].p < calls[j].p + calls[j].size
    ensures waiting == {}
  {
    hide Accepted, Enters, Forwards;
    forall id
      ensures id !in waiting
    {
    }
    Nobody(waiting);
  }

  // ---------- which calls are accepted ----------

  /** An accepted call for this id */
  predicate Touches(calls: seq<Call>, j: nat, id: Id) {
    Accepted(calls, j) && !Blank(calls[j]) && calls[j].id == id
  }

  /** The first call for its id says what kind of object it is, and how large until it is entered. */
  predicate Founds(calls: seq<Call>, f: nat) {
    f < |calls| && Touches(calls, f, calls[f].id) && forall j :: 0 <= j < f ==> !Touches(calls, j, calls[f].id)
  }

  lemma RowTouched(calls: seq<Call>, n: nat, id: Id)
    requires n <= |calls| && id in Run(calls[..n]).rows
    ensures exists j :: 0 <= j < n && Touches(calls, j, id)
  {
    hide Run, Accepted;
    var j := RowFrom(calls, n, id);
    assert Touches(calls, j, id);
  }

  lemma {:induction false} RowIs(keys: set<nat>, calls: seq<Call>, n: nat, f: nat)
    requires Fit(keys, calls) && Founds(calls, f) && f < n <= |calls|
    ensures var rows := Run(calls[..n]).rows;
      && calls[f].id in rows && rows[calls[f].id].kind == calls[f].kind
      && (rows[calls[f].id].ptr == 0 ==> rows[calls[f].id].size == calls[f].size)
    decreases n
  {
    hide Run, Distinct;
    RunNext(calls, n - 1);
    if f < n - 1 {
      RowIs(keys, calls, n - 1, f);
    } else if calls[f].id in Run(calls[..f]).rows {
      RowTouched(calls, f, calls[f].id);
    }
  }

  /** The row of an id in front of the call i */
  lemma RowBefore(keys: set<nat>, calls: seq<Call>, i: nat, f: nat)
    requires Fit(keys, calls) && f < i < |calls| && Founds(calls, f) && calls[i].id == calls[f].id
    ensures var row := RowFor(Run(calls[..i]), calls[i]);
      && row.kind == calls[f].kind
      && (row.ptr != 0 <==> exists k :: 0 <= k < i && Enters(calls, k) && calls[k].id == calls[f].id)
      && (row.ptr == 0 ==> row.size == calls[f].size)
      && (forall k :: 0 <= k < i && Enters(calls, k) && calls[k].id == calls[f].id ==> row.size == calls[k].size)
      && (Waiting(row) <==> exists k :: 0 <= k < i && Forwards(calls, k) && calls[k].id == calls[f].id)
  {
    hide Run, Accepted;
    RowIs(keys, calls, i, f);
    var id := calls[f].id;
    var row := Run(calls[..i]).rows[id];
    forall k | 0 <= k < i && Enters(calls, k) && calls[k].id == id
      ensures row.ptr == calls[k].p != 0 && row.size == calls[k].size
    {
      AllNoted(calls, i, k);
    }
    if row.ptr != 0 {
      var k := ObjectFrom(calls, i, id);
      assert Enters(calls, k);
    }
    WaitingBefore(calls, i, id);
  }

  lemma WaitingBefore(calls: seq<Call>, n: nat, id: Id)
    requires Distinct(calls) && n <= |calls| && id in Run(calls[..n]).rows
    ensures Waiting(Run(calls[..n]).rows[id]) <==>
      exists k :: 0 <= k < n && Forwards(calls, k) && calls[k].id == id
  {
    hide Run, Accepted;
    var row := Run(calls[..n]).rows[id];
    if Waiting(row) {
      var x := if row.copies != [] then row.copies[0] else row.forwards[0].ptr;
      assert Placed(row, x);
      var k := PlaceFrom(calls, n, id, x);
    }
    if k :| 0 <= k < n && Forwards(calls, k) && calls[k].id == id {
      AllNoted(calls, n, k);
      NotedPlaced(Run(calls[..n]), calls[k]);
    }
  }

  /** Which calls are accepted, by the calls before: the first one for an id always; a lookup unless
      an object of another kind was entered; a forwarding only of the same kind and size; and an entry
      only once, and of the same kind and size if there are places that wait. */
  lemma AcceptedExactly(keys: set<nat>, calls: seq<Call>, i: nat, f: nat)
    requires Fit(keys, calls) && f < i < |calls| && Founds(calls, f) && calls[i].id == calls[f].id && !Blank(calls[i])
    ensures calls[i].Lookup? ==>
      (Accepted(calls, i) <==>
       calls[i].kind == calls[f].kind || forall k :: 0 <= k < i && Enters(calls, k) ==> calls[k].id != calls[f].id)
    ensures calls[i].Forwarding? ==>
      (Accepted(calls, i) <==>
       && calls[i].kind == calls[f].kind
       && (forall k :: 0 <= k < i && Enters(calls, k) && calls[k].id == calls[f].id ==> calls[i].size == calls[k].size)
       && ((forall k :: 0 <= k < i && Enters(calls, k) ==> calls[k].id != calls[f].id) ==>
             calls[i].size == calls[f].size))
    ensures calls[i].Entering? ==>
      (Accepted(calls, i) <==>
       && (forall k :: 0 <= k < i && Enters(calls, k) ==> calls[k].id != calls[f].id)
       && ((exists k :: 0 <= k < i && Forwards(calls, k) && calls[k].id == calls[f].id) ==>
             calls[i].kind == calls[f].kind && calls[i].size == calls[f].size))
  {
    hide Run, Founds, Enters, Forwards, Fit, Waiting;
    RowBefore(keys, calls, i, f);
    AcceptedIs(calls, i);
  }

  lemma AcceptedIs(calls: seq<Call>, i: nat)
    requires i < |calls|
    ensures Accepted(calls, i) <==> Accepts(Run(calls[..i]), calls[i])
  {
  }

  lemma FirstAccepted(calls: seq<Call>, i: nat)
    requires i < |calls| && forall j :: 0 <= j < i ==> !Touches(calls, j, calls[i].id)
    ensures Accepted(calls, i)
  {
    hide Run;
    if calls[i].id in Run(calls[..i]).rows {
      RowTouched(calls, i, calls[i].id);
    }
  }

  // ---------- two runs ----------

  /** Two objects of a word each, and right behind each of them a place for the other */
  function SideCalls(kind: int): (calls: seq<Call>)
    ensures |calls| == 4
  {
    [Forwarding(SECOND, 101, kind, 1, false), Forwarding(FIRST, 202, kind, 1, false),
     Entering(FIRST, 100, kind, 1), Entering(SECOND, 201, kind, 1)]
  }

  lemma SideAccepted(kind: int, keys: set<nat>)
    requires keys == {100, 101, 201, 202}
    ensures Fit(keys, SideCalls(kind)) && forall i :: 0 <= i < 4 ==> Accepted(SideCalls(kind), i)
  {
    hide Accepted;
    var calls := SideCalls(kind);
    assert FIRST[1] != SECOND[1];
    FirstAccepted(calls, 0);
    FirstAccepted(calls, 1);
    AcceptedExactly(keys, calls, 2, 1);
    AcceptedExactly(keys, calls, 3, 0);
  }

  lemma SideLayout(kind: int, keys: set<nat>)
    requires keys == {100, 101, 201, 202}
    ensures LaidOut(keys, SideCalls(kind)) && AllBeside(SideCalls(kind))
  {
    hide Accepted;
    assert FIRST[1] != SECOND[1];
  }

  lemma SideEntered(kind: int, keys: set<nat>)
    requires keys == {100, 101, 201, 202}
    ensures AllEntered(SideCalls(kind)) && !Missing(SideCalls(kind))
  {
    hide Accepted, AllEntered, Missing;
    var calls := SideCalls(kind);
    SideAccepted(kind, keys);
    assert Enters(calls, 2) && Enters(calls, 3) && calls[2].id == FIRST && calls[3].id == SECOND;
    assert forall i :: 0 <= i < 4 ==> calls[i].id == FIRST || calls[i].id == SECOND;
    hide SideCalls;
    BothEntered(calls, 2, 3);
  }

  lemma BothEntered(calls: seq<Call>, j: nat, k: nat)
    requires j < |calls| && k < |calls| && Enters(calls, j) && Enters(calls, k)
    requires forall i :: 0 <= i < |calls| ==> calls[i].id == calls[j].id || calls[i].id == calls[k].id
    ensures AllEntered(calls) && !Missing(calls)
  {
    hide Accepted;
  }

  /** A place right behind an object is no part of it: both copies are made. */
  method SideBySide(cells: Cells, kind: int) returns (s: Soap, status: Status)
    requires cells.Keys == {100, 101, 201, 202}
    ensures status == Ok && s.cells == map[100 := cells[100], 101 := cells[201], 201 := cells[201], 202 := cells[100]]
  {
    hide Soap.Valid, Run, Accepted, BlockEachOther, LaidOut, AllBeside, AllEntered, Missing, Fit, Same;
    var calls := SideCalls(kind);
    SideAccepted(kind, cells.Keys);
    SideLayout(kind, cells.Keys);
    SideEntered(kind, cells.Keys);
    var accepted;
    s, accepted, status := ResolveBeside(cells, calls);
    assert Places(calls, 0) && Enters(calls, 3) && Places(calls, 1) && Enters(calls, 2);
    SameAt(s.cells, 101, s.cells, 201, 1, 101);
    SameAt(s.cells, 202, s.cells, 100, 1, 202);
  }

  /** A cell that was looked up for one kind of object gets the address of another kind, if the object
      is entered only then; the other way round the lookup is refused. */
  method OtherKind(cells: Cells, p: nat, q: nat, kind: int, other: int, n: nat)
    returns (s: Soap, status: Status, late: seq<bool>)
    requires p in cells && p != 0 && q != 0 && kind != other
    ensures status == Ok && p in s.cells && s.cells[p] == q
    ensures late == [true, false]
  {
    hide Soap.Valid, Run, Accepted;
    var calls := [Lookup(FIRST, p, kind, n), Entering(FIRST, q, other, n)];
    FirstAccepted(calls, 0);
    AcceptedExactly(cells.Keys, calls, 1, 0);
    var accepted;
    s, accepted, status := ResolveReferences(cells, calls);
    var turned := [Entering(FIRST, q, other, n), Lookup(FIRST, p, kind, n)];
    FirstAccepted(turned, 0);
    AcceptedExactly(cells.Keys, turned, 1, 0);
    var table, ok := Perform(cells, turned);
    late := ok;
  }
}
