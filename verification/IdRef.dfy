/** References to objects by id.  A reference to an object that is not there yet is kept in the cell
    that will refer to it: the cells that wait for one id form a chain, each holding the address of
    the next.  Places that will hold a copy of an object form such chains as well. */
module IdRef {
  import opened Bytes

  type Id = seq<byte>

  /** Memory, word by word; address 0 is null. */
  type Cells = map<nat, nat>

  const SOAP_IDHASH: nat := 1999
  const HASH: byte := 35    // '#'

  // ---------- what the table stands for ----------

  /** struct soap_flist: a place the object is to be forwarded to, by a function of the caller, which
      puts it into a container, say, or by plain copying. */
  datatype Forward = Forward(ptr: nat, own: bool)

  /** An id: its object (0 if there is none yet), the cells that wait for its address, the places that
      wait for a copy and hold the links of a chain, and the places it is to be forwarded to. */
  datatype Row = Row(kind: int, size: nat, ptr: nat, refs: seq<nat>, copies: seq<nat>, forwards: seq<Forward>)

  /** The places that are copied to. */
  function Plain(forwards: seq<Forward>): seq<nat> {
    if forwards == [] then [] else (if forwards[0].own then [] else [forwards[0].ptr]) + Plain(forwards[1..])
  }

  lemma PlainFirst(forwards: seq<Forward>)
    requires forwards != []
    ensures Plain(forwards) == (if forwards[0].own then [] else [forwards[0].ptr]) + Plain(forwards[1..])
  {
  }

  lemma PlainNone()
    ensures Plain([]) == []
  {
  }

  lemma {:induction false} PlainIn(forwards: seq<Forward>, i: nat) returns (j: nat)
    requires i < |Plain(forwards)|
    ensures j < |forwards| && forwards[j].ptr == Plain(forwards)[i]
  {
    if !forwards[0].own && i == 0 {
      j := 0;
    } else {
      j := PlainIn(forwards[1..], if forwards[0].own then i else i - 1);
      j := j + 1;
    }
  }

  /** All places that are to hold a copy of the object. */
  function Targets(row: Row): seq<nat> {
    row.copies + Plain(row.forwards)
  }

  function Head(s: seq<nat>): nat {
    if s == [] then 0 else s[0]
  }

  predicate NoDup(s: seq<nat>) {
    forall i, j :: 0 <= i < j < |s| ==> s[i] != s[j]
  }

  function AtOrNull(s: seq<nat>, i: nat): nat {
    if i < |s| then s[i] else 0
  }

  /** The cells s form a chain. */
  predicate Chain(cells: Cells, s: seq<nat>) {
    forall i :: 0 <= i < |s| ==> s[i] != 0 && s[i] in cells && cells[s[i]] == AtOrNull(s, i + 1)
  }

  ghost predicate Threaded(cells: Cells, rows: map<Id, Row>) {
    forall id :: id in rows ==>
      && Chain(cells, rows[id].refs) && NoDup(rows[id].refs)
      && Chain(cells, rows[id].copies) && NoDup(rows[id].copies)
  }

  /** `refOf` says of each referring cell which id it is for, `copyOf` of each place for a copy. */
  ghost predicate Owned(rows: map<Id, Row>, refOf: map<nat, Id>, copyOf: map<nat, Id>) {
    && (forall id, i :: id in rows && 0 <= i < |rows[id].refs| ==>
          rows[id].refs[i] in refOf && refOf[rows[id].refs[i]] == id)
    && (forall id, i :: id in rows && 0 <= i < |rows[id].copies| ==>
          rows[id].copies[i] in copyOf && copyOf[rows[id].copies[i]] == id)
    && (forall a :: a in refOf ==> a !in copyOf)
  }

  /** A referring cell waits, or holds the address of its object. */
  ghost predicate Answered(cells: Cells, rows: map<Id, Row>, refOf: map<nat, Id>) {
    forall a :: a in refOf ==>
      && a in cells && refOf[a] in rows
      && (a in rows[refOf[a]].refs || (rows[refOf[a]].ptr != 0 && cells[a] == rows[refOf[a]].ptr))
  }

  /** The state between two calls */
  ghost predicate Sound(cells: Cells, rows: map<Id, Row>, refOf: map<nat, Id>, copyOf: map<nat, Id>) {
    Threaded(cells, rows) && Owned(rows, refOf, copyOf) && Answered(cells, rows, refOf)
  }

  lemma ChainPut(cells: Cells, s: seq<nat>, p: nat)
    requires Chain(cells, s) && NoDup(s) && p != 0 && p in cells && p !in s
    ensures Chain(cells[p := Head(s)], [p] + s) && NoDup([p] + s)
  {
    var t := [p] + s;
    forall i | 0 <= i < |t|
      ensures cells[p := Head(s)][t[i]] == AtOrNull(t, i + 1)
    {
      assert i > 0 ==> t[i] == s[i - 1] && AtOrNull(t, i + 1) == AtOrNull(s, i);
    }
  }

  /** A change outside a chain does not touch it. */
  lemma ChainStays(cells: Cells, s: seq<nat>, p: nat, v: nat)
    requires Chain(cells, s) && p !in s
    ensures Chain(cells[p := v], s)
  {
  }

  /** The chains of the other cells of a table do not contain p. */
  lemma ChainsStay(cells: Cells, rows: map<Id, Row>, refOf: map<nat, Id>, copyOf: map<nat, Id>, p: nat, v: nat)
    requires Sound(cells, rows, refOf, copyOf) && p !in refOf && p !in copyOf
    ensures Threaded(cells[p := v], rows)
    ensures forall id :: id in rows ==> p !in rows[id].refs && p !in rows[id].copies
  {
    forall id | id in rows
      ensures Chain(cells[p := v], rows[id].refs) && Chain(cells[p := v], rows[id].copies)
      ensures p !in rows[id].refs && p !in rows[id].copies
    {
      assert forall i :: 0 <= i < |rows[id].refs| ==> rows[id].refs[i] in refOf;
      assert forall i :: 0 <= i < |rows[id].copies| ==> rows[id].copies[i] in copyOf;
      ChainStays(cells, rows[id].refs, p, v);
      ChainStays(cells, rows[id].copies, p, v);
    }
  }

  /** A cell is put in front of the chain of an id. */
  lemma RefAdded(cells: Cells, rows: map<Id, Row>, refOf: map<nat, Id>, copyOf: map<nat, Id>, id: Id, row: Row, p: nat)
    requires Sound(cells, rows, refOf, copyOf) && p != 0 && p in cells && p !in refOf && p !in copyOf
    requires if id in rows then row == rows[id] else row.refs == [] == row.copies
    ensures Sound(cells[p := Head(row.refs)], rows[id := row.(refs := [p] + row.refs)], refOf[p := id], copyOf)
  {
    hide Chain, NoDup;
    var refs' := [p] + row.refs;
    var rows' := rows[id := row.(refs := refs')];
    ChainsStay(cells, rows, refOf, copyOf, p, Head(row.refs));
    NoChain(cells);
    NoChain(cells[p := Head(row.refs)]);
    ChainPut(cells, row.refs, p);
    assert forall i :: 0 < i < |refs'| ==> refs'[i] == row.refs[i - 1];
    forall a | a in refOf
      ensures refOf[a] in rows && (a in rows[refOf[a]].refs ==> a in rows'[refOf[a]].refs)
    {
      if refOf[a] == id && a in row.refs {
        assert a in refs';
      }
    }
    assert p in refs';
  }

  lemma NoChain(cells: Cells)
    ensures Chain(cells, []) && NoDup([])
  {
  }

  /** A place is put in front of the chain of copies of an id. */
  lemma CopyAdded(cells: Cells, rows: map<Id, Row>, refOf: map<nat, Id>, copyOf: map<nat, Id>, id: Id, row: Row, p: nat)
    requires Sound(cells, rows, refOf, copyOf) && p != 0 && p in cells && p !in refOf && p !in copyOf
    requires if id in rows then row == rows[id] else row.refs == [] == row.copies
    ensures Sound(cells[p := Head(row.copies)], rows[id := row.(copies := [p] + row.copies)], refOf, copyOf[p := id])
  {
    hide Chain, NoDup;
    var copies' := [p] + row.copies;
    ChainsStay(cells, rows, refOf, copyOf, p, Head(row.copies));
    NoChain(cells);
    NoChain(cells[p := Head(row.copies)]);
    ChainPut(cells, row.copies, p);
    assert forall i :: 0 < i < |copies'| ==> copies'[i] == row.copies[i - 1];
  }

  /** A cell gets the address of an object that is there. */
  lemma RefAnswered(cells: Cells, rows: map<Id, Row>, refOf: map<nat, Id>, copyOf: map<nat, Id>, id: Id, p: nat)
    requires Sound(cells, rows, refOf, copyOf) && p != 0 && p in cells && p !in refOf && p !in copyOf
    requires id in rows && rows[id].ptr != 0
    ensures Sound(cells[p := rows[id].ptr], rows, refOf[p := id], copyOf)
  {
    hide Chain, NoDup;
    ChainsStay(cells, rows, refOf, copyOf, p, rows[id].ptr);
  }

  /** A row with the same chains; an object may have come. */
  lemma RowSet(cells: Cells, rows: map<Id, Row>, refOf: map<nat, Id>, copyOf: map<nat, Id>, id: Id, row: Row)
    requires Sound(cells, rows, refOf, copyOf)
    requires if id in rows then row.refs == rows[id].refs && row.copies == rows[id].copies
             else row.refs == [] == row.copies
    requires id in rows && rows[id].ptr != 0 ==> row.ptr == rows[id].ptr
    ensures Sound(cells, rows[id := row], refOf, copyOf)
  {
  }

  // ---------- the table ----------

  /** soap_hash, with the wrap-around of a 64-bit size_t and a signed char */
  function Hash(s: Id): (h: nat)
    ensures h < SOAP_IDHASH
  {
    Mix(s, 0) % SOAP_IDHASH
  }

  function Mix(s: Id, h: nat): nat {
    if s == [] then h else Mix(s[1..], (65599 * h + SignedChar(s[0])) % 0x1_0000_0000_0000_0000)
  }

  datatype Status = Ok | Href | DuplicateId | MissingId

  /** struct soap_ilist, for references of one level */
  class Entry {
    const id: Id
    var kind: int
    var size: nat
    var link: nat
    var copy: nat
    var flist: seq<Forward>
    var ptr: nat

    constructor (id: Id)
      ensures this.id == id && Agrees(this, Row(0, 0, 0, [], [], []))
    {
      this.id := id;
      kind, size, link, copy, flist, ptr := 0, 0, 0, 0, [], 0;
    }
  }

  ghost predicate Agrees(e: Entry, row: Row)
    reads e
  {
    && e.kind == row.kind && e.size == row.size && e.ptr == row.ptr
    && e.link == Head(row.refs) && e.copy == Head(row.copies) && e.flist == row.forwards
  }

  lemma HasRow(e: Entry, row: Row)
    requires Agrees(e, row)
    ensures e.kind == row.kind && e.size == row.size && e.ptr == row.ptr
    ensures e.link == Head(row.refs) && e.copy == Head(row.copies) && e.flist == row.forwards
  {
  }

  lemma GetsRow(e: Entry, row: Row)
    requires e.kind == row.kind && e.size == row.size && e.ptr == row.ptr
    requires e.link == Head(row.refs) && e.copy == Head(row.copies) && e.flist == row.forwards
    ensures Agrees(e, row)
  {
  }

  class Soap {
    const iht: array<seq<Entry>>
    var cells: Cells
    var id: Id                       // the id of the last error
    ghost var table: map<Id, Entry>
    ghost var rows: map<Id, Row>
    ghost var refOf: map<nat, Id>
    ghost var copyOf: map<nat, Id>

    /** Each id has one entry, in its bucket. */
    ghost predicate Indexed()
      reads this`table, iht
    {
      && iht.Length == SOAP_IDHASH
      && (forall h, j :: 0 <= h < SOAP_IDHASH && 0 <= j < |iht[h]| ==>
            iht[h][j].id in table && table[iht[h][j].id] == iht[h][j] && Hash(iht[h][j].id) == h)
      && (forall id :: id in table ==> table[id].id == id && table[id] in iht[Hash(id)])
    }

    /** `rows` is what the entries hold. */
    ghost predicate Held()
      reads this`table, this`rows, table.Values
    {
      table.Keys == rows.Keys && forall id :: id in table ==> table[id].id == id && Agrees(table[id], rows[id])
    }

    ghost predicate Consistent()
      reads this`cells, this`rows, this`refOf, this`copyOf
    {
      Sound(cells, rows, refOf, copyOf)
    }

    ghost predicate Valid()
      reads this, iht, table.Values
    {
      Indexed() && Held() && Consistent()
    }

    constructor (cells: Cells)
      ensures Valid() && rows == map[] && refOf == map[] && copyOf == map[] && this.cells == cells
      ensures fresh(iht) && table == map[]
    {
      iht := new seq<Entry>[SOAP_IDHASH](i => []);
      this.cells, id := cells, [];
      table, rows, refOf, copyOf := map[], map[], map[], map[];
    }

    /** soap_lookup */
    method Lookup(id: Id) returns (ip: Entry?)
      requires Indexed()
      ensures ip == if id in table then table[id] else null
    {
      var h := Hash(id);
      var j := 0;
      while j < |iht[h]|
        invariant j <= |iht[h]| && forall k :: 0 <= k < j ==> iht[h][k].id != id
      {
        if iht[h][j].id == id {
          return iht[h][j];
        }
        j := j + 1;
      }
      ip := null;
    }

    /** soap_enter */
    method Enter(id: Id) returns (ip: Entry)
      requires Indexed() && Held() && id !in table
      modifies this`table, this`rows, iht
      ensures Indexed() && Held() && fresh(ip) && ip.id == id
      ensures table == old(table)[id := ip] && rows == old(rows)[id := Row(0, 0, 0, [], [], [])]
    {
      hide Agrees, Hash, InBuckets, Indexed;
      IndexedBuckets(this);
      ip := new Entry(id);
      var h := Hash(id);
      assert ip !in table.Values;
      BucketAdded(iht[..], table, ip);
      iht[h] := [ip] + iht[h];
      assert iht[..] == old(iht[..])[h := [ip] + old(iht[h])];
      table := table[id := ip];
      rows := rows[id := Row(0, 0, 0, [], [], [])];
      IndexedBuckets(this);
    }

    /** ip->type = kind; ip->size = size; ip->ptr = ptr */
    method SetObject(ip: Entry, kind: int, size: nat, ptr: nat)
      requires Held() && ip.id in table && table[ip.id] == ip
      modifies this`rows, ip`kind, ip`size, ip`ptr
      ensures Held() && rows == old(rows)[ip.id := old(rows)[ip.id].(kind := kind, size := size, ptr := ptr)]
    {
      hide Agrees;
      ghost var row := rows[ip.id];
      HasRow(ip, row);
      assert forall id :: id in table && id != ip.id ==> table[id] != ip;
      ip.kind, ip.size, ip.ptr := kind, size, ptr;
      GetsRow(ip, row.(kind := kind, size := size, ptr := ptr));
      rows := rows[ip.id := row.(kind := kind, size := size, ptr := ptr)];
    }

    /** ip->link = q */
    method SetLink(ip: Entry, q: nat, ghost refs: seq<nat>)
      requires Held() && ip.id in table && table[ip.id] == ip && q == Head(refs)
      modifies this`rows, ip`link
      ensures Held() && rows == old(rows)[ip.id := old(rows)[ip.id].(refs := refs)]
    {
      ip.link := q;
      rows := rows[ip.id := rows[ip.id].(refs := refs)];
    }

    /** ip->copy = q */
    method SetCopy(ip: Entry, q: nat, ghost copies: seq<nat>)
      requires Held() && ip.id in table && table[ip.id] == ip && q == Head(copies)
      modifies this`rows, ip`copy
      ensures Held() && rows == old(rows)[ip.id := old(rows)[ip.id].(copies := copies)]
    {
      ip.copy := q;
      rows := rows[ip.id := rows[ip.id].(copies := copies)];
    }

    /** ip->flist = flist */
    method SetForwards(ip: Entry, flist: seq<Forward>)
      requires Held() && ip.id in table && table[ip.id] == ip
      modifies this`rows, ip`flist
      ensures Held() && rows == old(rows)[ip.id := old(rows)[ip.id].(forwards := flist)]
    {
      ip.flist := flist;
      rows := rows[ip.id := rows[ip.id].(forwards := flist)];
    }

    /** The entry of an id, or a new one */
    method EntryFor(href: Id, st: int, n: nat) returns (ip: Entry)
      requires Valid()
      modifies this`table, this`rows, iht
      ensures Valid() && href in table && table[href] == ip && (ip in old(table.Values) || fresh(ip))
      ensures fresh(table.Values - old(table.Values))
      ensures rows == old(rows)[href := Find(old(rows), href, Row(st, n, 0, [], [], []))]
      ensures href in old(rows) ==> rows == old(rows)
    {
      hide Sound, Hash, Held, Indexed;
      EntryFacts(this, href);
      RowSet(cells, rows, refOf, copyOf, href, Find(rows, href, Row(st, n, 0, [], [], [])));
      ghost var start := rows;
      var found := Lookup(href);
      if found == null {
        ip := Enter(href);
        SetObject(ip, st, n, 0);
        assert rows == start[href := Row(st, n, 0, [], [], [])];
      } else {
        ip := found;
      }
    }

    /** The cell p is put in front of the chain of an entry. */
    method AddLink(ip: Entry, p: nat)
      requires Valid() && ip.id in table && table[ip.id] == ip && p != 0 && p in cells && p !in refOf && p !in copyOf
      modifies this`cells, this`rows, this`refOf, ip`link
      ensures Valid() && refOf == old(refOf)[p := ip.id] && ip.id in old(rows)
      ensures var row := old(rows)[ip.id];
        cells == old(cells)[p := Head(row.refs)] && rows == old(rows)[ip.id := row.(refs := [p] + row.refs)]
    {
      hide Sound, Hash, Held, Indexed;
      EntryFacts(this, ip.id);
      ghost var row := rows[ip.id];
      RefAdded(cells, rows, refOf, copyOf, ip.id, row, p);
      var q := ip.link;
      SetLink(ip, p, [p] + row.refs);
      cells := cells[p := q];
      refOf := refOf[p := ip.id];
    }

    /** soap_id_lookup: the cell p is to refer to the object with this id. */
    method IdLookup(id: Id, p: nat, t: int, n: nat) returns (r: nat, status: Status)
      requires Valid()
      requires id != [] && p != 0 ==> p in cells && p !in refOf && p !in copyOf
      modifies this, iht, table.Values
      ensures Valid() && copyOf == old(copyOf) && fresh(table.Values - old(table.Values))
      ensures id == [] || p == 0 ==>
        r == p && status == Ok && cells == old(cells) && rows == old(rows) && refOf == old(refOf)
      ensures id != [] && p != 0 ==>
        var row := Find(old(rows), id, Row(t, n, 0, [], [], []));
        if row.ptr != 0 && row.kind != t then
          r == 0 && status == Href && this.id == id && cells == old(cells) && rows == old(rows) && refOf == old(refOf)
        else
          && r == p && status == Ok && refOf == old(refOf)[p := id]
          && (row.ptr != 0 ==> cells == old(cells)[p := row.ptr] && rows == old(rows))
          && (row.ptr == 0 ==>
                cells == old(cells)[p := Head(row.refs)] && rows == old(rows)[id := row.(refs := [p] + row.refs)])
    {
      hide Sound, Hash, Held, Indexed;
      r, status := p, Ok;
      if p == 0 || id == [] {
        return;
      }
      ghost var row := Find(rows, id, Row(t, n, 0, [], [], []));
      ghost var start := rows;
      var ip := EntryFor(id, t, n);
      EntryFacts(this, id);
      if ip.ptr != 0 {
        if ip.kind != t {
          this.id := id;
          return 0, Href;
        }
        RefAnswered(cells, rows, refOf, copyOf, id, p);
        cells := cells[p := ip.ptr];
        refOf := refOf[p := id];
      } else {
        AddLink(ip, p);
        assert rows == start[id := row.(refs := [p] + row.refs)];
      }
    }

    /** The place p is put in front of the chain of copies of an entry. */
    method AddCopy(ip: Entry, p: nat)
      requires Valid() && ip.id in table && table[ip.id] == ip && p != 0 && p in cells && p !in refOf && p !in copyOf
      modifies this`cells, this`rows, this`copyOf, ip`copy
      ensures Valid() && copyOf == old(copyOf)[p := ip.id] && ip.id in old(rows)
      ensures var row := old(rows)[ip.id];
        cells == old(cells)[p := Head(row.copies)] && rows == old(rows)[ip.id := row.(copies := [p] + row.copies)]
    {
      hide Sound, Hash, Held, Indexed;
      EntryFacts(this, ip.id);
      ghost var row := rows[ip.id];
      CopyAdded(cells, rows, refOf, copyOf, ip.id, row, p);
      cells := cells[p := ip.copy];
      SetCopy(ip, p, [p] + row.copies);
      copyOf := copyOf[p := ip.id];
    }

    /** Another forwarding in front of those of an entry */
    method AddForward(ip: Entry, f: Forward)
      requires Valid() && ip.id in table && table[ip.id] == ip
      modifies this`rows, ip`flist
      ensures Valid() && ip.id in old(rows)
      ensures var row := old(rows)[ip.id]; rows == old(rows)[ip.id := row.(forwards := [f] + row.forwards)]
    {
      hide Sound, Hash, Held, Indexed;
      EntryFacts(this, ip.id);
      ghost var row := rows[ip.id];
      RowSet(cells, rows, refOf, copyOf, ip.id, row.(forwards := [f] + row.forwards));
      SetForwards(ip, [f] + ip.flist);
    }

    /** soap_id_forward: the n words at p are to become a copy of the object with this id.  They are
        not put into the chain if the caller has its own way to copy (`fcopy`), if not even an
        address fits in, or if the id is not a local one. */
    method IdForward(href: Id, p: nat, st: int, n: nat, fcopy: bool) returns (r: nat, status: Status)
      requires Valid()
      requires href != [] && p != 0 ==> p in cells && p !in refOf && p !in copyOf
      modifies this, iht, table.Values
      ensures Valid() && refOf == old(refOf) && fresh(table.Values - old(table.Values))
      ensures href == [] || p == 0 ==>
        r == p && status == Ok && cells == old(cells) && rows == old(rows) && copyOf == old(copyOf)
      ensures href != [] && p != 0 ==>
        var row := Find(old(rows), href, Row(st, n, 0, [], [], []));
        if row.kind != st || row.size != n then
          r == 0 && status == Href && id == href && cells == old(cells) && rows == old(rows) && copyOf == old(copyOf)
        else if fcopy || n < 1 || href[0] != HASH then
          && r == p && status == Ok && cells == old(cells) && copyOf == old(copyOf)
          && rows == old(rows)[href := row.(forwards := [Forward(p, fcopy)] + row.forwards)]
        else
          && r == p && status == Ok && copyOf == old(copyOf)[p := href]
          && cells == old(cells)[p := Head(row.copies)] && rows == old(rows)[href := row.(copies := [p] + row.copies)]
    {
      hide Sound, Hash, Held, Indexed;
      r, status := p, Ok;
      if p == 0 || href == [] {
        return;
      }
      ghost var row := Find(rows, href, Row(st, n, 0, [], [], []));
      ghost var start := rows;
      var ip := EntryFor(href, st, n);
      EntryFacts(this, href);
      if ip.kind != st || ip.size != n {
        id := href;
        return 0, Href;
      }
      if fcopy || n < 1 || href[0] != HASH {
        AddForward(ip, Forward(p, fcopy));
        assert rows == start[href := row.(forwards := [Forward(p, fcopy)] + row.forwards)];
      } else {
        AddCopy(ip, p);
        assert rows == start[href := row.(copies := [p] + row.copies)];
      }
    }

    /** The object is put into the entry of its id, or into a new one. */
    method PutObject(id: Id, found: Entry?, t: int, n: nat, p: nat)
      requires Valid() && found == (if id in table then table[id] else null) && p != 0
      requires id in rows ==> rows[id].ptr == 0
      modifies this`table, this`rows, iht, table.Values
      ensures Valid() && fresh(table.Values - old(table.Values))
      ensures rows == old(rows)[id := Find(old(rows), id, Row(t, n, 0, [], [], [])).(size := n, ptr := p)]
    {
      hide Sound, Hash, Held, Indexed;
      EntryFacts(this, id);
      ghost var row := Find(rows, id, Row(t, n, 0, [], [], []));
      ghost var start := rows;
      RowSet(cells, rows, refOf, copyOf, id, row.(size := n, ptr := p));
      if found == null {
        var ip := Enter(id);
        SetObject(ip, t, n, p);
      } else {
        SetObject(found, found.kind, n, p);
      }
      assert rows == start[id := row.(size := n, ptr := p)];
    }

    /** soap_id_enter: the object with this id is at p; for no p, at the new address `alloc`. */
    method IdEnter(id: Id, p0: nat, t: int, n: nat, alloc: nat) returns (r: nat, status: Status)
      requires Valid() && alloc != 0
      modifies this, iht, table.Values
      ensures Valid() && cells == old(cells) && refOf == old(refOf) && copyOf == old(copyOf)
      ensures fresh(table.Values - old(table.Values))
      ensures id == [] ==> r == (if p0 == 0 then alloc else p0) && status == Ok && rows == old(rows)
      ensures id != [] ==>
        var row := Find(old(rows), id, Row(t, n, 0, [], [], []));
        if (row.kind != t || row.size != n) && (row.copies != [] || row.forwards != []) then
          r == 0 && status == Href && this.id == id && rows == old(rows)
        else if row.ptr != 0 then
          r == 0 && status == DuplicateId && this.id == id && rows == old(rows)
        else
          && r == (if p0 == 0 then alloc else p0) && status == Ok
          && rows == old(rows)[id := row.(size := n, ptr := r)]
    {
      hide Sound, Hash, Held, Indexed;
      status := Ok;
      var p := if p0 == 0 then alloc else p0;
      if id == [] {
        return p, Ok;
      }
      EntryFacts(this, id);
      var ip := Lookup(id);
      if ip != null {
        ChainHeads(cells, rows, refOf, copyOf, id);
        if (ip.kind != t || ip.size != n) && (ip.copy != 0 || ip.flist != []) {
          this.id := id;
          return 0, Href;
        } else if ip.ptr != 0 {
          this.id := id;
          return 0, DuplicateId;
        }
      }
      PutObject(id, ip, t, n, p);
      r := p;
    }

    // ---------- resolving references ----------

    /** Every cell of the chain of an entry gets the address of the object. */
    method FillLinks(ip: Entry, ghost row: Row)
      requires Held() && ip.id in table && table[ip.id] == ip && Agrees(ip, row) && rows[ip.id] == row
      requires Chain(cells, row.refs) && NoDup(row.refs)
      modifies this`cells, this`rows, ip`link
      ensures Held() && rows == old(rows)[ip.id := row.(refs := [])]
      ensures cells == Filled(old(cells), row.refs, row.ptr)
    {
      hide Held, Filled;
      ghost var refs, before := row.refs, cells;
      var q := ip.link;
      SetLink(ip, 0, []);
      var r := ip.ptr;
      ghost var k := 0;
      FilledNone(before, refs, r);
      while q != 0
        invariant k <= |refs| && q == AtOrNull(refs, k)
        invariant cells == Filled(before, refs[..k], r)
        decreases |refs| - k
        modifies this`cells
      {
        FilledNext(before, refs, k, r);
        var p := cells[q];
        cells := cells[q := r];
        q := p;
        k := k + 1;
      }
      assert refs[..k] == refs;
    }

    /** The first part of soap_resolve, for one entry; an id without an object must not be local. */
    method ResolveEntry(ip: Entry) returns (missing: bool)
      requires Valid() && ip.id in table && table[ip.id] == ip
      modifies this`cells, this`rows, this`id, ip`link
      ensures Valid() && ip.id in rows && Fewer(old(rows), rows) && SameBut(old(cells), cells, refOf)
      ensures if missing then [HASH] + id == ip.id && rows[ip.id].ptr == 0 else Linked(ip.id, rows[ip.id])
    {
      hide Sound, Held, Filled, Hash, Indexed;
      EntryFacts(this, ip.id);
      ghost var row := rows[ip.id];
      if ip.ptr != 0 {
        LinksFilled(cells, rows, refOf, copyOf, ip.id);
        FillLinks(ip, row);
      } else if ip.id != [] && ip.id[0] == HASH {
        this.id := ip.id[1..];
        assert [HASH] + this.id == ip.id;
        return true;
      }
      missing := false;
    }

    /** The first part of soap_resolve */
    method ResolveLinks() returns (status: Status)
      requires Valid()
      modifies this`cells, this`rows, this`id, table.Values`link
      ensures Valid() && Fewer(old(rows), rows) && SameBut(old(cells), cells, refOf)
      ensures status == Ok || (status == MissingId && [HASH] + id in rows && rows[[HASH] + id].ptr == 0)
      ensures status == Ok ==> forall id :: id in rows ==> Linked(id, rows[id])
    {
      hide Sound, Held, Linked, Fewer, SameBut, Hash;
      ghost var seen: set<Id> := {};
      FewerSame(rows);
      SameButSame(cells, refOf);
      var h := 0;
      while h < SOAP_IDHASH
        invariant h <= SOAP_IDHASH
        invariant Valid() && Fewer(old(rows), rows) && SameBut(old(cells), cells, refOf)
        invariant AllLinked(seen, rows)
        invariant forall id :: id in table && Hash(id) < h ==> id in seen
      {
        var j := 0;
        while j < |iht[h]|
          invariant j <= |iht[h]|
          invariant Valid() && Fewer(old(rows), rows) && SameBut(old(cells), cells, refOf)
          invariant AllLinked(seen, rows)
          invariant forall id :: id in table && Hash(id) < h ==> id in seen
          invariant forall k :: 0 <= k < j ==> iht[h][k].id in seen
        {
          var ip := iht[h][j];
          ghost var before, cells0 := rows, cells;
          var missing := ResolveEntry(ip);
          FewerTwice(old(rows), before, rows);
          SameButTwice(old(cells), cells0, cells, refOf);
          if missing {
            return MissingId;
          }
          LinkedStays(seen, before, rows, ip.id);
          seen := seen + {ip.id};
          j := j + 1;
        }
        h := h + 1;
      }
      EntryFacts(this, []);
      status := Ok;
    }

    // ---------- resolving copies ----------

    /** soap_has_copies: whether something in [start, end) still waits. */
    method HasCopies(start: nat, end: nat) returns (found: bool)
      requires Valid()
      ensures found <==> SomeWait(rows, start, end)
    {
      hide Sound, Held, Hash, Waits;
      ghost var seen: set<Id> := {};
      var h := 0;
      while h < SOAP_IDHASH
        invariant h <= SOAP_IDHASH
        invariant forall id :: id in seen && id in rows ==> !Waits(rows[id], start, end)
        invariant forall id :: id in table && Hash(id) < h ==> id in seen
      {
        var j := 0;
        while j < |iht[h]|
          invariant j <= |iht[h]|
          invariant forall id :: id in seen && id in rows ==> !Waits(rows[id], start, end)
          invariant forall id :: id in table && Hash(id) < h ==> id in seen
          invariant forall k :: 0 <= k < j ==> iht[h][k].id in seen
        {
          var ip := iht[h][j];
          EntryFacts(this, ip.id);
          CopyChain(cells, rows, refOf, copyOf, ip.id);
          found := EntryWaits(ip, rows[ip.id], start, end);
          if found {
            return;
          }
          seen := seen + {ip.id};
          j := j + 1;
        }
        h := h + 1;
      }
      EntryFacts(this, []);
      found := false;
    }

    method EntryWaits(ip: Entry, ghost row: Row, start: nat, end: nat) returns (found: bool)
      requires Agrees(ip, row) && Chain(cells, row.copies)
      ensures found <==> Waits(row, start, end)
    {
      var p := ip.copy;
      ghost var k := 0;
      while p != 0
        invariant k <= |row.copies| && p == AtOrNull(row.copies, k)
        invariant forall i :: 0 <= i < k ==> !(start <= row.copies[i] < end)
        decreases |row.copies| - k
      {
        if p >= start && p < end {
          return true;
        }
        p := cells[p];
        k := k + 1;
      }
      var fp := 0;
      while fp < |ip.flist|
        invariant fp <= |ip.flist| && forall i :: 0 <= i < fp ==> !(start <= row.forwards[i].ptr < end)
      {
        if ip.flist[fp].ptr >= start && ip.flist[fp].ptr < end {
          return true;
        }
        fp := fp + 1;
      }
      found := false;
    }

    /** memcpy, of words, between places that do not overlap */
    method MemCopy(dst: nat, src: nat, n: nat)
      requires InMemory(cells.Keys, dst, n) && InMemory(cells.Keys, src, n) && Apart(dst, n, src, n)
      modifies this`cells
      ensures SameOutside(old(cells), cells, dst, n) && Same(cells, dst, old(cells), src, n)
    {
      for i := 0 to n
        invariant SameOutside(old(cells), cells, dst, n)
        invariant Same(cells, dst, old(cells), src, i)
      {
        assert Inside(src + i, src, n) && Inside(dst + i, dst, n);
        assert cells[src + i] == old(cells)[src + i];
        cells := cells[dst + i := cells[src + i]];
      }
    }

    /** One more place is copied to. */
    method FillPlace(q: nat, ptr: nat, n: nat, ghost before: Cells, ghost places: seq<nat>, ghost k: nat)
      requires k < |places| && q == places[k] && Clear(before.Keys, places, ptr, n)
      requires Copied(before, cells, places[..k], ptr, n)
      modifies this`cells
      ensures Copied(before, cells, places[..k + 1], ptr, n)
    {
      hide InMemory, Same, SameOutside, Copied, Clear;
      NextPlace(before, cells, places, ptr, n, k);
      MemCopy(q, ptr, n);
      CopiedNext(before, old(cells), cells, places, ptr, n, k);
    }

    /** The copies that wait for one entry, whose object does not wait for anything itself. */
    method FillCopies(ip: Entry, ghost row: Row)
      requires Held() && ip.id in table && table[ip.id] == ip && Agrees(ip, row) && rows[ip.id] == row
      requires Chain(cells, row.copies) && row.copies != [] && row.size > 0
      requires Clear(cells.Keys, Targets(row), row.ptr, row.size)
      modifies this`cells, this`rows, ip`copy
      ensures Held() && rows == old(rows)[ip.id := row.(copies := [])]
      ensures Copied(old(cells), cells, Targets(row)[..|row.copies|], row.ptr, row.size)
    {
      hide Held, InMemory, Same, SameOutside, Clear, Plain, Copied;
      ghost var cs, before, ts := row.copies, cells, Targets(row);
      var q := ip.copy;
      SetCopy(ip, 0, []);
      ghost var k := 0;
      CopiedNone(cells, ts, ip.ptr, ip.size);
      while true
        invariant k < |cs| && q == cs[k] == ts[k]
        invariant Copied(before, cells, ts[..k], ip.ptr, ip.size)
        decreases |cs| - k
        modifies this`cells
      {
        NextPlace(before, cells, ts, ip.ptr, ip.size, k);
        var p := cells[q];
        FillPlace(q, ip.ptr, ip.size, before, ts, k);
        q := p;
        k := k + 1;
        if q == 0 {
          break;
        }
      }
    }

    /** The places one entry is to be forwarded to: one is copied to, or it is left to the function of
        the caller, and what that writes is not in these cells.  (Places of the chain come first.) */
    method ServeForwards(ip: Entry, ghost row: Row, ghost before: Cells) returns (flag: bool)
      requires Held() && ip.id in table && table[ip.id] == ip && ip.id in rows
      requires row.forwards == rows[ip.id].forwards && row.ptr == rows[ip.id].ptr && row.size == rows[ip.id].size
      requires Clear(before.Keys, Targets(row), row.ptr, row.size)
      requires Copied(before, cells, Targets(row)[..|row.copies|], row.ptr, row.size)
      modifies this`cells, this`rows, ip`flist
      ensures Held() && rows == old(rows)[ip.id := old(rows)[ip.id].(forwards := [])]
      ensures flag <==> row.forwards != []
      ensures Copied(before, cells, Targets(row), row.ptr, row.size)
    {
      hide Held, InMemory, Same, SameOutside, Clear, Plain, Copied;
      ghost var ts, k := Targets(row), |row.copies|;
      flag := false;
      EntryFacts(this, ip.id);
      assert rows[ip.id] == rows[ip.id].(forwards := ip.flist);
      assert ts[k..] == Plain(ip.flist);
      while ip.flist != []
        invariant Held() && ip.id in table && table[ip.id] == ip && ip.id in rows
        invariant rows == old(rows)[ip.id := old(rows)[ip.id].(forwards := ip.flist)]
        invariant flag <==> ip.flist != row.forwards
        invariant |ip.flist| <= |row.forwards|
        invariant k <= |ts| && ts[k..] == Plain(ip.flist) && Copied(before, cells, ts[..k], row.ptr, row.size)
        decreases |ip.flist|
        modifies this`cells, this`rows, ip`flist
      {
        EntryFacts(this, ip.id);
        var fp := ip.flist[0];
        PlainFirst(ip.flist);
        if !fp.own {
          assert ts[k] == fp.ptr && ts[k + 1..] == Plain(ip.flist[1..]);
          FillPlace(fp.ptr, ip.ptr, ip.size, before, ts, k);
          k := k + 1;
        }
        SetForwards(ip, ip.flist[1..]);
        EntryFacts(this, ip.id);
        flag := true;
      }
      PlainNone();
      assert ts[..k] == ts;
    }

    /** The second part of soap_resolve, for one entry: copies and containers are served, unless the
        object waits for something itself. */
    method CopyEntry(ip: Entry, ghost rows0: map<Id, Row>) returns (flag: bool)
      requires Valid() && ip.id in table && table[ip.id] == ip
      requires Layout(cells.Keys, rows0, refOf) && Served(rows0, rows, cells) && Kept(rows0, rows)
      modifies this`cells, this`rows, ip`copy, ip`flist
      ensures Valid() && Served(rows0, rows, cells) && Kept(rows0, rows) && ip.id in old(rows)
      ensures Changed(old(rows), rows, old(cells), cells)
      ensures Narrower(old(rows), rows)
      ensures flag ==> Waiting(old(rows)[ip.id]) && rows == old(rows)[ip.id := Idle(old(rows)[ip.id])]
      ensures !flag ==> rows == old(rows) && Stuck(rows, ip.id)
    {
      hide Sound, Held, Indexed, Hash, Layout, Served, Changed, Narrower, SomeWait, Clear, Chain, Copied, Targets, Kept;
      EntryFacts(this, ip.id);
      ghost var row, start, cells0 := rows[ip.id], rows, cells;
      CopyChain(cells, rows, refOf, copyOf, ip.id);
      ChainHeads(cells, rows, refOf, copyOf, ip.id);
      ChangedSame(rows, cells);
      flag := false;
      if ip.ptr == 0 {
        return;
      }
      var waits := HasCopies(ip.ptr, ip.ptr + ip.size);
      if waits {
        return;
      }
      EntryLayout(cells.Keys, rows0, rows, cells, refOf, ip.id);
      if ip.copy != 0 {
        FillCopies(ip, row);
        flag := true;
      } else {
        CopiedNothing(cells, row);
      }
      EntryFacts(this, ip.id);
      var served := ServeForwards(ip, row, cells0);
      flag := flag || served;
      assert rows == start[ip.id := Idle(row)];
      KeptServed(rows0, start, cells0, ip.id);
      CopiesServed(rows0, start, cells0, cells, refOf, copyOf, ip.id);
      NarrowerNow(start, ip.id);
      if !flag {
        IdleStuck(rows, ip.id);
      }
    }

    /** One pass over all entries */
    method CopyPass(ghost rows0: map<Id, Row>) returns (flag: bool)
      requires Valid() && Layout(cells.Keys, rows0, refOf) && Served(rows0, rows, cells) && Kept(rows0, rows)
      modifies this`cells, this`rows, table.Values`copy, table.Values`flist
      ensures Valid() && Served(rows0, rows, cells) && Kept(rows0, rows) && Changed(old(rows), rows, old(cells), cells)
      ensures Narrower(old(rows), rows)
      ensures flag ==> |WaitingIds(rows)| < |WaitingIds(old(rows))|
      ensures !flag ==> forall id :: id in rows ==> Stuck(rows, id)
    {
      hide Sound, Held, Hash, Layout, Served, Changed, Narrower, Stuck, Waiting, Kept;
      ghost var seen: set<Id> := {};
      ChangedSame(rows, cells);
      flag := false;
      var h := 0;
      while h < SOAP_IDHASH
        invariant h <= SOAP_IDHASH
        invariant Valid() && Served(rows0, rows, cells) && Kept(rows0, rows) && cells.Keys == old(cells).Keys
        invariant Changed(old(rows), rows, old(cells), cells) && Narrower(old(rows), rows)
        invariant if flag then |WaitingIds(rows)| < |WaitingIds(old(rows))| else rows == old(rows)
        invariant !flag ==> forall id :: id in seen ==> Stuck(rows, id)
        invariant forall id :: id in table && Hash(id) < h ==> id in seen
      {
        var j := 0;
        while j < |iht[h]|
          invariant j <= |iht[h]|
          invariant Valid() && Served(rows0, rows, cells) && Kept(rows0, rows) && cells.Keys == old(cells).Keys
          invariant Changed(old(rows), rows, old(cells), cells) && Narrower(old(rows), rows)
          invariant if flag then |WaitingIds(rows)| < |WaitingIds(old(rows))| else rows == old(rows)
          invariant !flag ==> forall id :: id in seen ==> Stuck(rows, id)
          invariant forall id :: id in table && Hash(id) < h ==> id in seen
          invariant forall k :: 0 <= k < j ==> iht[h][k].id in seen
        {
          var ip := iht[h][j];
          ghost var before, cells0 := rows, cells;
          var served := CopyEntry(ip, rows0);
          if served {
            FewerWaiting(before, ip.id);
          }
          ChangedTwice(old(rows), before, rows, old(cells), cells0, cells);
          flag := flag || served;
          seen := seen + {ip.id};
          j := j + 1;
        }
        h := h + 1;
      }
      EntryFacts(this, []);
    }

    /** The second part of soap_resolve: passes, until one changes nothing. */
    method ResolveCopies()
      requires Valid() && Layout(cells.Keys, rows, refOf)
      modifies this`cells, this`rows, table.Values`copy, table.Values`flist
      ensures Valid() && Served(old(rows), rows, cells) && Changed(old(rows), rows, old(cells), cells)
      ensures GreatestBlocked(old(rows), WaitingIds(rows))
    {
      hide Sound, Held, Hash, Layout, Served, Changed, Narrower, Stuck, Waiting, Indexed, Kept, GreatestBlocked;
      ServedSame(rows, cells);
      KeptSame(rows);
      ChangedSame(rows, cells);
      while true
        invariant Valid() && Served(old(rows), rows, cells) && Kept(old(rows), rows) && cells.Keys == old(cells).Keys
        invariant Changed(old(rows), rows, old(cells), cells) && Narrower(old(rows), rows)
        decreases |WaitingIds(rows)|
      {
        ghost var before, cells0 := rows, cells;
        var flag := CopyPass(old(rows));
        ChangedTwice(old(rows), before, rows, old(cells), cells0, cells);
        if !flag {
          StuckBlocked(old(rows), rows, cells);
          break;
        }
      }
    }

    /** soap_resolve.  It fails exactly if a local id has no object.  Otherwise every cell that refers
        to an id with an object holds the address of this object; the ids that still wait are the
        greatest set of ids that block each other; a place for a copy of any other object holds
        what the object holds; and nothing else in memory has changed. */
    method Resolve() returns (status: Status)
      requires Valid() && Layout(cells.Keys, rows, refOf)
      modifies this`cells, this`rows, this`id, table.Values
      ensures Valid() && refOf == old(refOf) && copyOf == old(copyOf)
      ensures status == if exists id :: id in old(rows) && Undefined(id, old(rows)[id]) then MissingId else Ok
      ensures cells.Keys == old(cells).Keys
      ensures status == Ok ==>
        && GreatestBlocked(old(rows), WaitingIds(rows))
        && rows == Settled(old(rows), WaitingIds(rows))
        && (forall a :: a in refOf && old(rows)[refOf[a]].ptr != 0 ==>
              a in cells && cells[a] == old(rows)[refOf[a]].ptr)
        && (forall id, i :: id in old(rows) && id !in WaitingIds(rows) && 0 <= i < |Targets(old(rows)[id])| ==>
              Same(cells, Targets(old(rows)[id])[i], cells, old(rows)[id].ptr, old(rows)[id].size))
        && (forall x :: x in cells && x !in refOf && Free(old(rows), rows, x) ==> cells[x] == old(cells)[x])
    {
      hide Sound, Held, Hash, Layout, Waiting, Indexed, Same, Free, CopiesOf, GreatestBlocked, Settled, Served, Fewer;
      FoundFacts(rows, refOf, cells, copyOf);
      status := ResolveLinks();
      ghost var rows1, cells1 := rows, cells;
      UndefinedFewer(old(rows), rows1);
      if status != Ok {
        return;
      }
      LayoutFewer(cells.Keys, old(rows), rows, refOf);
      ResolveCopies();
      AllAnswered(old(rows), rows1, cells, rows, refOf, copyOf);
      FreeFewer(old(rows), rows1, rows);
      AllCopied(old(rows), rows1, rows, cells);
      AllSettled(old(rows), rows1, rows, cells);
    }
  }

  ghost predicate InBuckets(buckets: seq<seq<Entry>>, table: map<Id, Entry>) {
    && |buckets| == SOAP_IDHASH
    && (forall h, j :: 0 <= h < SOAP_IDHASH && 0 <= j < |buckets[h]| ==>
          buckets[h][j].id in table && table[buckets[h][j].id] == buckets[h][j] && Hash(buckets[h][j].id) == h)
    && (forall id :: id in table ==> table[id].id == id && table[id] in buckets[Hash(id)])
  }

  lemma IndexedBuckets(s: Soap)
    ensures s.Indexed() <==> InBuckets(s.iht[..], s.table)
    ensures s.Indexed() ==> s.iht.Length == SOAP_IDHASH
  {
    hide Hash;
    if s.iht.Length == SOAP_IDHASH {
      assert forall h :: 0 <= h < SOAP_IDHASH ==> s.iht[..][h] == s.iht[h];
    }
  }

  lemma BucketAdded(buckets: seq<seq<Entry>>, table: map<Id, Entry>, ip: Entry)
    requires InBuckets(buckets, table) && ip.id !in table
    ensures var h := Hash(ip.id); InBuckets(buckets[h := [ip] + buckets[h]], table[ip.id := ip])
  {
    hide Hash;
    var h := Hash(ip.id);
    var bs := buckets[h := [ip] + buckets[h]];
    assert forall j :: 0 < j < |bs[h]| ==> bs[h][j] == buckets[h][j - 1];
    assert bs[h][0] == ip;
  }

  lemma EntryFacts(s: Soap, id: Id)
    requires s.Held()
    ensures s.table.Keys == s.rows.Keys
    ensures id in s.table ==> s.table[id].id == id && Agrees(s.table[id], s.rows[id])
  {
  }

  function Find(rows: map<Id, Row>, id: Id, none: Row): Row {
    if id in rows then rows[id] else none
  }

  /** A chain is empty exactly if its head is null. */
  lemma ChainHeads(cells: Cells, rows: map<Id, Row>, refOf: map<nat, Id>, copyOf: map<nat, Id>, id: Id)
    requires Sound(cells, rows, refOf, copyOf) && id in rows
    ensures Head(rows[id].refs) == 0 <==> rows[id].refs == []
    ensures Head(rows[id].copies) == 0 <==> rows[id].copies == []
  {
  }

  // ---------- what resolving does ----------

  ghost function Filled(cells: Cells, refs: seq<nat>, v: nat): Cells {
    map a | a in cells :: if a in refs then v else cells[a]
  }

  lemma FilledNone(cells: Cells, refs: seq<nat>, v: nat)
    ensures Filled(cells, refs[..0], v) == cells
  {
  }

  lemma FilledNext(cells: Cells, refs: seq<nat>, k: nat, v: nat)
    requires Chain(cells, refs) && NoDup(refs) && k < |refs|
    ensures var f := Filled(cells, refs[..k], v);
      refs[k] in f && f[refs[k]] == cells[refs[k]] && Filled(cells, refs[..k + 1], v) == f[refs[k] := v]
  {
    PrefixNext(refs, k);
    assert refs[k] !in refs[..k];
  }

  /** Chains of references have gone, nothing else. */
  ghost predicate Fewer(before: map<Id, Row>, rows: map<Id, Row>) {
    && rows.Keys == before.Keys
    && forall id :: id in rows ==>
         rows[id] == before[id] || (before[id].ptr != 0 && rows[id] == before[id].(refs := []))
  }

  /** What the first part leaves of an id: no chain if there is an object; without one it is not local. */
  predicate Linked(id: Id, row: Row) {
    if row.ptr != 0 then row.refs == [] else id == [] || id[0] != HASH
  }

  ghost predicate AllLinked(seen: set<Id>, rows: map<Id, Row>) {
    forall id :: id in seen ==> id in rows && Linked(id, rows[id])
  }

  /** Only cells that refer to an id have changed. */
  ghost predicate SameBut(before: Cells, cells: Cells, refOf: map<nat, Id>) {
    cells.Keys == before.Keys && forall a :: a in cells && a !in refOf ==> cells[a] == before[a]
  }

  lemma FewerSame(rows: map<Id, Row>)
    ensures Fewer(rows, rows)
  {
  }

  lemma FewerTwice(a: map<Id, Row>, b: map<Id, Row>, c: map<Id, Row>)
    requires Fewer(a, b) && Fewer(b, c)
    ensures Fewer(a, c)
  {
  }

  lemma SameButSame(cells: Cells, refOf: map<nat, Id>)
    ensures SameBut(cells, cells, refOf)
  {
  }

  lemma SameButTwice(a: Cells, b: Cells, c: Cells, refOf: map<nat, Id>)
    requires SameBut(a, b, refOf) && SameBut(b, c, refOf)
    ensures SameBut(a, c, refOf)
  {
  }

  lemma LinkedStays(seen: set<Id>, before: map<Id, Row>, rows: map<Id, Row>, id: Id)
    requires AllLinked(seen, before) && Fewer(before, rows) && id in rows && Linked(id, rows[id])
    ensures AllLinked(seen + {id}, rows)
  {
  }

  lemma ChainMembers(cells: Cells, s: seq<nat>)
    requires Chain(cells, s)
    ensures forall i :: 0 <= i < |s| ==> s[i] in cells
  {
  }

  lemma LinksFilled(cells: Cells, rows: map<Id, Row>, refOf: map<nat, Id>, copyOf: map<nat, Id>, id: Id)
    requires Sound(cells, rows, refOf, copyOf) && id in rows && rows[id].ptr != 0
    ensures Chain(cells, rows[id].refs) && NoDup(rows[id].refs)
    ensures var cells' := Filled(cells, rows[id].refs, rows[id].ptr);
      && Sound(cells', rows[id := rows[id].(refs := [])], refOf, copyOf)
      && cells'.Keys == cells.Keys
      && forall a :: a in cells && a !in refOf ==> cells'[a] == cells[a]
  {
    hide Chain, NoDup;
    var row, cells' := rows[id], Filled(cells, rows[id].refs, rows[id].ptr);
    var rows' := rows[id := row.(refs := [])];
    NoChain(cells');
    assert forall i :: 0 <= i < |row.refs| ==> row.refs[i] in refOf && refOf[row.refs[i]] == id;
    forall other | other in rows'
      ensures Chain(cells', rows'[other].refs) && Chain(cells', rows'[other].copies)
    {
      ChainIn(cells, rows, refOf, copyOf, other);
      CopyChain(cells, rows, refOf, copyOf, other);
      assert forall i :: 0 <= i < |rows[other].copies| ==> rows[other].copies[i] in copyOf;
      ChainMembers(cells, rows[other].copies);
      ChainSame(cells, cells', rows[other].copies);
      if other != id {
        assert forall i :: 0 <= i < |rows[other].refs| ==> refOf[rows[other].refs[i]] == other;
        ChainSame(cells, cells', rows[other].refs);
      }
    }
    forall a | a in refOf
      ensures a in rows'[refOf[a]].refs || (rows'[refOf[a]].ptr != 0 && cells'[a] == rows'[refOf[a]].ptr)
    {
      assert a in rows[refOf[a]].refs || cells[a] == rows[refOf[a]].ptr;
    }
  }

  predicate Waits(row: Row, start: nat, end: nat) {
    || (exists i :: 0 <= i < |row.copies| && start <= row.copies[i] < end)
    || (exists i :: 0 <= i < |row.forwards| && start <= row.forwards[i].ptr < end)
  }

  lemma CopyChain(cells: Cells, rows: map<Id, Row>, refOf: map<nat, Id>, copyOf: map<nat, Id>, id: Id)
    requires Sound(cells, rows, refOf, copyOf) && id in rows
    ensures Chain(cells, rows[id].copies) && NoDup(rows[id].copies)
  {
  }

  // ---------- places in memory ----------

  predicate Inside(a: nat, start: nat, n: nat) {
    start <= a < start + n
  }

  predicate Apart(a: nat, n: nat, b: nat, m: nat) {
    a + n <= b || b + m <= a
  }

  predicate Within(a: nat, n: nat, b: nat, m: nat) {
    b <= a && a + n <= b + m
  }

  ghost predicate InMemory(keys: set<nat>, a: nat, n: nat) {
    forall x: nat :: Inside(x, a, n) ==> x in keys
  }

  /** The n words at a and those at b, in another state of memory, are the same. */
  ghost predicate Same(cells: Cells, a: nat, other: Cells, b: nat, n: nat) {
    forall x: nat :: Inside(x, a, n) ==> x in cells && b + (x - a) in other && cells[x] == other[b + (x - a)]
  }

  ghost predicate SameOutside(before: Cells, cells: Cells, a: nat, n: nat) {
    cells.Keys == before.Keys && forall x :: x in cells && !Inside(x, a, n) ==> cells[x] == before[x]
  }

  predicate TargetsApart(r: Row, s: Row, same: bool) {
    forall i, j :: 0 <= i < |Targets(r)| && 0 <= j < |Targets(s)| && !(same && i == j) ==>
      Apart(Targets(r)[i], r.size, Targets(s)[j], s.size)
  }

  /** The places for copies of an object and the object itself lie in memory, the places one beside
      the other, and there is room for the link of the chain. */
  ghost predicate Places(keys: set<nat>, r: Row) {
    && (r.copies != [] ==> r.size > 0)
    && TargetsApart(r, r, true)
    && (forall i :: 0 <= i < |Targets(r)| ==> InMemory(keys, Targets(r)[i], r.size))
    && (r.ptr != 0 && Targets(r) != [] ==> InMemory(keys, r.ptr, r.size))
  }

  /** Memory when the object was copied to all the places: nothing else has changed. */
  ghost predicate Copied(before: Cells, cells: Cells, places: seq<nat>, ptr: nat, n: nat) {
    && cells.Keys == before.Keys
    && (forall x :: x in cells && (forall i :: 0 <= i < |places| ==> !Inside(x, places[i], n)) ==>
          cells[x] == before[x])
    && (forall i :: 0 <= i < |places| ==> Same(cells, places[i], before, ptr, n))
  }

  lemma CopiedNone(cells: Cells, places: seq<nat>, ptr: nat, n: nat)
    ensures Copied(cells, cells, places[..0], ptr, n)
  {
  }

  /** What is beside all the places that were filled is unchanged. */
  lemma BesidePlaces(before: Cells, cells: Cells, places: seq<nat>, ptr: nat, n: nat, a: nat, m: nat)
    requires Copied(before, cells, places, ptr, n) && InMemory(before.Keys, a, m)
    requires forall i :: 0 <= i < |places| ==> Apart(places[i], n, a, m)
    ensures Same(cells, a, before, a, m)
  {
    forall x: nat | Inside(x, a, m)
      ensures cells[x] == before[x]
    {
      forall i | 0 <= i < |places|
        ensures !Inside(x, places[i], n)
      {
        assert Apart(places[i], n, a, m);
      }
    }
  }

  /** The places are one beside the other and beside the object. */
  ghost predicate Clear(keys: set<nat>, places: seq<nat>, ptr: nat, n: nat) {
    && (forall i, j :: 0 <= i < j < |places| ==> Apart(places[i], n, places[j], n))
    && (forall i :: 0 <= i < |places| ==> InMemory(keys, places[i], n) && Apart(places[i], n, ptr, n))
    && (places != [] ==> InMemory(keys, ptr, n))
  }

  /** The next place still is as it was, and so is the object. */
  lemma NextPlace(before: Cells, cells: Cells, places: seq<nat>, ptr: nat, n: nat, k: nat)
    requires k < |places| && Clear(before.Keys, places, ptr, n) && Copied(before, cells, places[..k], ptr, n)
    ensures InMemory(cells.Keys, places[k], n) && InMemory(cells.Keys, ptr, n) && Apart(places[k], n, ptr, n)
    ensures Same(cells, ptr, before, ptr, n)
    ensures n > 0 ==> places[k] in cells && cells[places[k]] == before[places[k]]
  {
    BesidePlaces(before, cells, places[..k], ptr, n, places[k], n);
    BesidePlaces(before, cells, places[..k], ptr, n, ptr, n);
    assert n > 0 ==> Inside(places[k], places[k], n);
  }

  lemma CopiedNext(before: Cells, now: Cells, cells: Cells, places: seq<nat>, ptr: nat, n: nat, k: nat)
    requires k < |places| && Clear(before.Keys, places, ptr, n)
    requires Copied(before, now, places[..k], ptr, n) && Same(now, ptr, before, ptr, n)
    requires SameOutside(now, cells, places[k], n) && Same(cells, places[k], now, ptr, n)
    ensures Copied(before, cells, places[..k + 1], ptr, n)
  {
    var q, done := places[k], places[..k];
    var all := done + [q];
    assert places[..k + 1] == all;
    SameTwice(cells, q, now, ptr, before, n);
    forall i | 0 <= i < |all|
      ensures Same(cells, all[i], before, ptr, n)
    {
      if i < k {
        assert all[i] == done[i] && Same(now, done[i], before, ptr, n);
        SameApart(now, cells, q, done[i], before, ptr, n);
      }
    }
    assert all[k] == q;
    assert forall i :: 0 <= i < k ==> done[i] == all[i];
  }

  lemma SameTwice(cells: Cells, q: nat, now: Cells, ptr: nat, before: Cells, n: nat)
    requires Same(cells, q, now, ptr, n) && Same(now, ptr, before, ptr, n)
    ensures Same(cells, q, before, ptr, n)
  {
    forall x: nat | Inside(x, q, n)
      ensures ptr + (x - q) in before && cells[x] == before[ptr + (x - q)]
    {
      assert Inside(ptr + (x - q), ptr, n);
    }
  }

  /** A change beside a place leaves what it holds. */
  lemma SameApart(now: Cells, cells: Cells, q: nat, a: nat, other: Cells, ptr: nat, n: nat)
    requires SameOutside(now, cells, q, n) && Apart(a, n, q, n) && Same(now, a, other, ptr, n)
    ensures Same(cells, a, other, ptr, n)
  {
  }

  // ---------- the whole of soap_resolve ----------

  function Idle(row: Row): Row {
    row.(copies := [], forwards := [])
  }

  predicate Waiting(row: Row) {
    row.copies != [] || row.forwards != []
  }

  /** Something in the range still waits. */
  ghost predicate SomeWait(rows: map<Id, Row>, start: nat, end: nat) {
    exists id :: id in rows && Waits(rows[id], start, end)
  }

  /** An id is served as far as it can be: nothing waits for it, or there is no object, or the object
      has a part that waits itself. */
  ghost predicate Stuck(rows: map<Id, Row>, id: Id) {
    id in rows &&
    (Waiting(rows[id]) && rows[id].ptr != 0 ==> SomeWait(rows, rows[id].ptr, rows[id].ptr + rows[id].size))
  }

  /** An object of which copies are made is apart from a place for a copy, or the place is a part of it. */
  ghost predicate TargetSource(r: Row, s: Row) {
    forall i :: 0 <= i < |Targets(r)| && s.ptr != 0 && Targets(s) != [] ==>
      Apart(Targets(r)[i], r.size, s.ptr, s.size) || Within(Targets(r)[i], r.size, s.ptr, s.size)
  }

  /** How the objects, the places for copies and the referring cells lie in memory */
  ghost predicate Layout(keys: set<nat>, rows: map<Id, Row>, refOf: map<nat, Id>) {
    && (forall id :: id in rows ==> Places(keys, rows[id]))
    && (forall id, other :: id in rows && other in rows ==>
          TargetSource(rows[id], rows[other]) && TargetsApart(rows[id], rows[other], id == other))
    && (forall a, id, i :: a in refOf && id in rows && 0 <= i < |Targets(rows[id])| ==>
          !Inside(a, Targets(rows[id])[i], rows[id].size))
  }

  /** How far the copies have come: for each id all are made, from an object that waits for nothing
      and still is the same, or none is. */
  ghost predicate Served(before: map<Id, Row>, rows: map<Id, Row>, cells: Cells) {
    && rows.Keys == before.Keys
    && forall id :: id in rows ==>
         || rows[id] == before[id]
         || (before[id].ptr != 0 && rows[id] == Idle(before[id]) && CopiesOf(before[id], rows, cells))
  }

  ghost predicate CopiesOf(row: Row, rows: map<Id, Row>, cells: Cells) {
    && !SomeWait(rows, row.ptr, row.ptr + row.size)
    && forall i :: 0 <= i < |Targets(row)| ==> Same(cells, Targets(row)[i], cells, row.ptr, row.size)
  }

  /** Only places where a copy was made have changed. */
  ghost predicate Changed(before: map<Id, Row>, rows: map<Id, Row>, cells0: Cells, cells: Cells) {
    cells.Keys == cells0.Keys && forall x :: x in cells && Free(before, rows, x) ==> cells[x] == cells0[x]
  }

  /** No copy was made over this word. */
  ghost predicate Free(before: map<Id, Row>, rows: map<Id, Row>, x: nat) {
    forall id, i :: id in before && id in rows && !Waiting(rows[id]) && 0 <= i < |Targets(before[id])| ==>
      !Inside(x, Targets(before[id])[i], before[id].size)
  }

  /** Each of these ids waits, and has no object, or one with a part that waits for one of them. */
  ghost predicate Blocked(rows: map<Id, Row>, ids: set<Id>) {
    forall id :: id in ids ==>
      && id in rows && Waiting(rows[id])
      && (rows[id].ptr != 0 ==> Blocking(rows, ids, rows[id].ptr, rows[id].ptr + rows[id].size))
  }

  ghost predicate Blocking(rows: map<Id, Row>, ids: set<Id>, start: nat, end: nat) {
    exists other :: other in ids && other in rows && Waits(rows[other], start, end)
  }

  /** Ids that block each other still wait. */
  ghost predicate Kept(before: map<Id, Row>, rows: map<Id, Row>) {
    forall ids: set<Id> :: Blocked(before, ids) ==> ids <= WaitingIds(rows)
  }

  /** The ids are the greatest set of ids that block each other. */
  ghost predicate GreatestBlocked(rows: map<Id, Row>, ids: set<Id>) {
    Blocked(rows, ids) && forall other: set<Id> :: Blocked(rows, other) ==> other <= ids
  }

  lemma KeptSame(rows: map<Id, Row>)
    ensures Kept(rows, rows)
  {
  }

  lemma KeptServed(before: map<Id, Row>, rows: map<Id, Row>, cells: Cells, id: Id)
    requires Served(before, rows, cells) && Kept(before, rows) && id in rows && rows[id].ptr != 0
    requires !SomeWait(rows, rows[id].ptr, rows[id].ptr + rows[id].size)
    ensures Kept(before, rows[id := Idle(rows[id])])
  {
    hide CopiesOf, Waits;
    forall ids: set<Id> | Blocked(before, ids)
      ensures ids <= WaitingIds(rows[id := Idle(rows[id])])
    {
      assert ids <= WaitingIds(rows);
      if id in ids {
        var other :|
          other in ids && other in before && Waits(before[other], before[id].ptr, before[id].ptr + before[id].size);
        assert other in WaitingIds(rows);
        assert rows[other] == before[other];
      }
    }
  }

  /** When no id can be served any more, those that wait block each other. */
  lemma StuckBlocked(before: map<Id, Row>, rows: map<Id, Row>, cells: Cells)
    requires Served(before, rows, cells) && Kept(before, rows)
    requires forall id :: id in rows ==> Stuck(rows, id)
    ensures GreatestBlocked(before, WaitingIds(rows))
  {
    hide CopiesOf, Waits;
    var ids := WaitingIds(rows);
    forall id | id in ids && rows[id].ptr != 0
      ensures Blocking(before, ids, rows[id].ptr, rows[id].ptr + rows[id].size)
    {
      assert Stuck(rows, id);
      var other :| other in rows && Waits(rows[other], rows[id].ptr, rows[id].ptr + rows[id].size);
      WaitsWaiting(rows[other], rows[id].ptr, rows[id].ptr + rows[id].size);
      assert other in ids && rows[other] == before[other];
    }
    assert forall id :: id in ids ==> rows[id] == before[id];
  }

  lemma WaitsWaiting(row: Row, start: nat, end: nat)
    requires Waits(row, start, end)
    ensures Waiting(row)
  {
  }

  lemma BlockedFewer(before: map<Id, Row>, rows: map<Id, Row>, ids: set<Id>)
    requires Fewer(before, rows)
    ensures Blocked(before, ids) <==> Blocked(rows, ids)
  {
  }

  lemma ChangedSame(rows: map<Id, Row>, cells: Cells)
    ensures Changed(rows, rows, cells, cells) && Narrower(rows, rows)
  {
  }

  lemma IdleStuck(rows: map<Id, Row>, id: Id)
    requires id in rows && !Waiting(rows[id])
    ensures Stuck(rows, id)
  {
  }

  /** A local id without an object */
  predicate Undefined(id: Id, row: Row) {
    row.ptr == 0 && id != [] && id[0] == HASH
  }

  /** A place outside of a range does not lie in it as a whole. */
  lemma {:induction false} NotWithin(r: Row, i: nat, ptr: nat, n: nat)
    requires i < |Targets(r)| && !Waits(r, ptr, ptr + n)
    requires Apart(Targets(r)[i], r.size, ptr, n) || Within(Targets(r)[i], r.size, ptr, n)
    ensures Apart(Targets(r)[i], r.size, ptr, n)
  {
    if i >= |r.copies| {
      var j := PlainIn(r.forwards, i - |r.copies|);
      assert !(ptr <= r.forwards[j].ptr < ptr + n);
    } else {
      assert !(ptr <= r.copies[i] < ptr + n);
    }
  }

  lemma EntryLayout(keys: set<nat>, rows0: map<Id, Row>, rows: map<Id, Row>, cells: Cells, refOf: map<nat, Id>, id: Id)
    requires Layout(keys, rows0, refOf) && Served(rows0, rows, cells) && id in rows && rows[id].ptr != 0
    requires !SomeWait(rows, rows[id].ptr, rows[id].ptr + rows[id].size)
    ensures Clear(keys, Targets(rows[id]), rows[id].ptr, rows[id].size)
    ensures rows[id].copies != [] ==> rows[id].size > 0
  {
    hide InMemory, Apart, Within, Waits, Plain;
    var r := rows[id];
    PlainNone();
    assert Places(keys, rows0[id]) && TargetSource(rows0[id], rows0[id]);
    forall i | 0 <= i < |Targets(r)|
      ensures Apart(Targets(r)[i], r.size, r.ptr, r.size)
    {
      NotWithin(r, i, r.ptr, r.size);
    }
  }

  lemma CopiedNothing(cells: Cells, row: Row)
    requires row.copies == []
    ensures Copied(cells, cells, Targets(row)[..|row.copies|], row.ptr, row.size)
  {
  }

  lemma LessWait(rows: map<Id, Row>, id: Id, start: nat, end: nat)
    requires id in rows && !SomeWait(rows, start, end)
    ensures !SomeWait(rows[id := Idle(rows[id])], start, end)
  {
  }

  /** Referring cells are not where copies are made. */
  lemma RefsUntouched(rows0: map<Id, Row>, rows: map<Id, Row>, before: Cells, cells: Cells, refOf: map<nat, Id>, id: Id)
    requires Layout(before.Keys, rows0, refOf) && Served(rows0, rows, before) && id in rows
    requires Copied(before, cells, Targets(rows[id]), rows[id].ptr, rows[id].size)
    ensures forall a :: a in refOf && a in before ==> cells[a] == before[a]
  {
    hide Plain, Waits, Same, Places, TargetSource, TargetsApart;
    NoTargets(rows0[id]);
  }

  lemma NoTargets(row: Row)
    ensures Targets(Idle(row)) == []
  {
  }

  /** The links of other places are not where copies are made. */
  lemma PlacesUntouched(rows0: map<Id, Row>, rows: map<Id, Row>, before: Cells, cells: Cells, refOf: map<nat, Id>,
                        id: Id, other: Id)
    requires Layout(before.Keys, rows0, refOf) && Served(rows0, rows, before)
    requires id in rows && other in rows && id != other
    requires Copied(before, cells, Targets(rows[id]), rows[id].ptr, rows[id].size)
    ensures forall i :: 0 <= i < |rows[other].copies| ==>
      rows[other].copies[i] in before && cells[rows[other].copies[i]] == before[rows[other].copies[i]]
  {
    var r, s := rows[id], rows[other];
    NoTargets(rows0[id]);
    assert TargetsApart(rows0[other], rows0[id], false) && Places(before.Keys, rows0[other]);
    forall i | 0 <= i < |s.copies|
      ensures s.copies[i] in before && cells[s.copies[i]] == before[s.copies[i]]
    {
      assert Targets(rows0[other])[i] == s.copies[i];
      assert Inside(s.copies[i], s.copies[i], s.size);
      forall j | 0 <= j < |Targets(r)|
        ensures !Inside(s.copies[i], Targets(r)[j], r.size)
      {
        assert Apart(s.copies[i], s.size, Targets(r)[j], r.size);
      }
    }
  }

  /** The places where copies are made now are beside a place that was filled, and beside its object. */
  lemma PlacesBeside(rows0: map<Id, Row>, rows: map<Id, Row>, before: Cells, refOf: map<nat, Id>,
                     id: Id, other: Id, i: nat)
    requires Layout(before.Keys, rows0, refOf) && Served(rows0, rows, before) && id in rows && other in rows
    requires other in rows0 && rows0[other].ptr != 0 && rows[other] == Idle(rows0[other]) && i < |Targets(rows0[other])|
    requires !SomeWait(rows, rows0[other].ptr, rows0[other].ptr + rows0[other].size)
    ensures var r, s := rows[id], rows0[other];
      && InMemory(before.Keys, Targets(s)[i], s.size) && InMemory(before.Keys, s.ptr, s.size)
      && forall j :: 0 <= j < |Targets(r)| ==>
           Apart(Targets(r)[j], r.size, Targets(s)[i], s.size) && Apart(Targets(r)[j], r.size, s.ptr, s.size)
  {
    hide CopiesOf, Apart, Within, InMemory, Targets, Waits;
    var r, s := rows[id], rows0[other];
    NoTargets(rows0[id]);
    NoTargets(s);
    assert TargetSource(rows0[id], s) && TargetsApart(s, rows0[id], other == id) && Places(before.Keys, s);
    forall j | 0 <= j < |Targets(r)|
      ensures Apart(Targets(r)[j], r.size, Targets(s)[i], s.size) && Apart(Targets(r)[j], r.size, s.ptr, s.size)
    {
      ApartTurned(Targets(s)[i], s.size, Targets(r)[j], r.size);
      NotWithin(r, j, s.ptr, s.size);
    }
  }

  lemma ApartTurned(a: nat, n: nat, b: nat, m: nat)
    ensures Apart(a, n, b, m) <==> Apart(b, m, a, n)
  {
  }

  /** The copies that were made before keep what they hold, and so do their objects. */
  lemma CopiesKept(rows0: map<Id, Row>, rows: map<Id, Row>, before: Cells, cells: Cells, refOf: map<nat, Id>,
                   id: Id, other: Id)
    requires Layout(before.Keys, rows0, refOf) && Served(rows0, rows, before) && id in rows && other in rows
    requires Copied(before, cells, Targets(rows[id]), rows[id].ptr, rows[id].size)
    requires other in rows0 && rows0[other].ptr != 0
    requires rows[other] == Idle(rows0[other]) && CopiesOf(rows0[other], rows, before)
    ensures CopiesOf(rows0[other], rows[id := Idle(rows[id])], cells)
  {
    hide Layout, Served, Copied, InMemory, Same, SomeWait, Apart, Targets;
    var r, s := rows[id], rows0[other];
    LessWait(rows, id, s.ptr, s.ptr + s.size);
    forall i | 0 <= i < |Targets(s)|
      ensures Same(cells, Targets(s)[i], cells, s.ptr, s.size)
    {
      PlacesBeside(rows0, rows, before, refOf, id, other, i);
      BesidePlaces(before, cells, Targets(r), r.ptr, r.size, Targets(s)[i], s.size);
      BesidePlaces(before, cells, Targets(r), r.ptr, r.size, s.ptr, s.size);
      SameBoth(before, cells, Targets(s)[i], s.ptr, s.size);
    }
  }

  lemma SameBoth(before: Cells, cells: Cells, a: nat, b: nat, n: nat)
    requires Same(before, a, before, b, n) && Same(cells, a, before, a, n) && Same(cells, b, before, b, n)
    ensures Same(cells, a, cells, b, n)
  {
    forall x: nat | Inside(x, a, n)
      ensures b + (x - a) in cells && cells[x] == cells[b + (x - a)]
    {
      assert Inside(b + (x - a), b, n);
    }
  }

  /** The copies that were made now */
  lemma CopiesMade(rows0: map<Id, Row>, rows: map<Id, Row>, before: Cells, cells: Cells, refOf: map<nat, Id>, id: Id)
    requires Layout(before.Keys, rows0, refOf) && Served(rows0, rows, before) && id in rows && rows[id] == rows0[id]
    requires Copied(before, cells, Targets(rows[id]), rows[id].ptr, rows[id].size) && rows[id].ptr != 0
    requires !SomeWait(rows, rows[id].ptr, rows[id].ptr + rows[id].size)
    ensures CopiesOf(rows0[id], rows[id := Idle(rows[id])], cells)
  {
    hide Layout, Served, InMemory, Same, SomeWait, Apart, Targets;
    var r := rows[id];
    LessWait(rows, id, r.ptr, r.ptr + r.size);
    EntryLayout(before.Keys, rows0, rows, before, refOf, id);
    forall i | 0 <= i < |Targets(r)|
      ensures Same(cells, Targets(r)[i], cells, r.ptr, r.size)
    {
      BesidePlaces(before, cells, Targets(r), r.ptr, r.size, r.ptr, r.size);
      SameBack(before, cells, Targets(r)[i], r.ptr, r.size);
    }
  }

  lemma SameBack(before: Cells, cells: Cells, a: nat, b: nat, n: nat)
    requires Same(cells, a, before, b, n) && Same(cells, b, before, b, n)
    ensures Same(cells, a, cells, b, n)
  {
    forall x: nat | Inside(x, a, n)
      ensures b + (x - a) in cells && cells[x] == cells[b + (x - a)]
    {
      assert Inside(b + (x - a), b, n);
    }
  }

  lemma ChainSame(before: Cells, cells: Cells, s: seq<nat>)
    requires Chain(before, s) && cells.Keys == before.Keys
    requires forall i :: 0 <= i < |s| ==> s[i] in cells && cells[s[i]] == before[s[i]]
    ensures Chain(cells, s)
  {
  }

  /** Serving one id keeps the state sound, and what was served before. */
  lemma CopiesServed(rows0: map<Id, Row>, rows: map<Id, Row>, before: Cells, cells: Cells,
                     refOf: map<nat, Id>, copyOf: map<nat, Id>, id: Id)
    requires Sound(before, rows, refOf, copyOf) && Layout(before.Keys, rows0, refOf) && Served(rows0, rows, before)
    requires id in rows && rows[id].ptr != 0 && !SomeWait(rows, rows[id].ptr, rows[id].ptr + rows[id].size)
    requires Copied(before, cells, Targets(rows[id]), rows[id].ptr, rows[id].size)
    ensures var rows' := rows[id := Idle(rows[id])];
      Sound(cells, rows', refOf, copyOf) && Served(rows0, rows', cells) && Changed(rows, rows', before, cells)
  {
    hide Sound, Layout, CopiesOf, SomeWait, Targets, Served, Same;
    var rows' := rows[id := Idle(rows[id])];
    StaysSound(rows0, rows, before, cells, refOf, copyOf, id);
    StaysServed(rows0, rows, before, cells, refOf, id);
    assert !Waiting(rows'[id]);
  }

  lemma StaysServed(rows0: map<Id, Row>, rows: map<Id, Row>, before: Cells, cells: Cells, refOf: map<nat, Id>, id: Id)
    requires Layout(before.Keys, rows0, refOf) && Served(rows0, rows, before)
    requires id in rows && rows[id].ptr != 0 && !SomeWait(rows, rows[id].ptr, rows[id].ptr + rows[id].size)
    requires Copied(before, cells, Targets(rows[id]), rows[id].ptr, rows[id].size)
    ensures Served(rows0, rows[id := Idle(rows[id])], cells)
  {
    hide Layout, CopiesOf, SomeWait, Targets, Copied;
    var rows' := rows[id := Idle(rows[id])];
    forall other | other in rows && rows'[other] != rows0[other]
      ensures rows0[other].ptr != 0 && rows'[other] == Idle(rows0[other]) && CopiesOf(rows0[other], rows', cells)
    {
      if rows[other] == rows0[other] {
        CopiesMade(rows0, rows, before, cells, refOf, id);
      } else {
        CopiesKept(rows0, rows, before, cells, refOf, id, other);
      }
    }
  }

  lemma StaysSound(rows0: map<Id, Row>, rows: map<Id, Row>, before: Cells, cells: Cells,
                   refOf: map<nat, Id>, copyOf: map<nat, Id>, id: Id)
    requires Sound(before, rows, refOf, copyOf) && Layout(before.Keys, rows0, refOf) && Served(rows0, rows, before)
    requires id in rows
    requires Copied(before, cells, Targets(rows[id]), rows[id].ptr, rows[id].size)
    ensures Sound(cells, rows[id := Idle(rows[id])], refOf, copyOf)
  {
    hide Chain, NoDup, Layout, Served, Targets;
    var rows' := rows[id := Idle(rows[id])];
    RefsUntouched(rows0, rows, before, cells, refOf, id);
    NoChain(cells);
    forall other | other in rows
      ensures Chain(cells, rows'[other].refs) && Chain(cells, rows'[other].copies)
    {
      ChainIn(before, rows, refOf, copyOf, other);
      ChainSame(before, cells, rows[other].refs);
      if other != id {
        PlacesUntouched(rows0, rows, before, cells, refOf, id, other);
        ChainSame(before, cells, rows[other].copies);
      }
    }
  }

  lemma ChainIn(cells: Cells, rows: map<Id, Row>, refOf: map<nat, Id>, copyOf: map<nat, Id>, id: Id)
    requires Sound(cells, rows, refOf, copyOf) && id in rows
    ensures Chain(cells, rows[id].refs) && Chain(cells, rows[id].copies)
    ensures forall i :: 0 <= i < |rows[id].refs| ==> rows[id].refs[i] in refOf && rows[id].refs[i] in cells
  {
  }

  function WaitingIds(rows: map<Id, Row>): set<Id> {
    set id | id in rows && Waiting(rows[id])
  }

  lemma FewerWaiting(rows: map<Id, Row>, id: Id)
    requires id in rows && Waiting(rows[id])
    ensures |WaitingIds(rows[id := Idle(rows[id])])| < |WaitingIds(rows)|
  {
    assert WaitingIds(rows[id := Idle(rows[id])]) == WaitingIds(rows) - {id};
  }

  lemma ServedSame(rows: map<Id, Row>, cells: Cells)
    ensures Served(rows, rows, cells)
  {
  }

  lemma NarrowerNow(rows: map<Id, Row>, id: Id)
    requires id in rows
    ensures Narrower(rows, rows[id := Idle(rows[id])])
  {
  }

  lemma FoundFacts(rows: map<Id, Row>, refOf: map<nat, Id>, cells: Cells, copyOf: map<nat, Id>)
    requires Sound(cells, rows, refOf, copyOf)
    ensures forall a :: a in refOf ==> refOf[a] in rows
  {
  }

  /** What resolving leaves of the rows, if these ids still wait. */
  function Settled(rows: map<Id, Row>, waiting: set<Id>): map<Id, Row> {
    map id | id in rows ::
      var row := if rows[id].ptr != 0 then rows[id].(refs := []) else rows[id];
      if id in waiting then row else Idle(row)
  }

  lemma UndefinedFewer(before: map<Id, Row>, rows: map<Id, Row>)
    requires Fewer(before, rows)
    ensures before.Keys == rows.Keys
    ensures forall id :: id in rows ==> (Undefined(id, before[id]) <==> Undefined(id, rows[id]))
  {
  }

  /** With all chains of references gone, the cells hold the addresses. */
  lemma AllAnswered(rows0: map<Id, Row>, before: map<Id, Row>, cells: Cells, rows: map<Id, Row>, refOf: map<nat, Id>,
                    copyOf: map<nat, Id>)
    requires Sound(cells, rows, refOf, copyOf) && Fewer(rows0, before) && Served(before, rows, cells)
    requires forall id :: id in before ==> Linked(id, before[id])
    ensures forall a :: a in refOf ==> a in cells && refOf[a] in rows0
    ensures forall a :: a in refOf && rows0[refOf[a]].ptr != 0 ==> cells[a] == rows0[refOf[a]].ptr
  {
    forall a | a in refOf && rows0[refOf[a]].ptr != 0
      ensures cells[a] == rows0[refOf[a]].ptr
    {
      assert Linked(refOf[a], before[refOf[a]]);
    }
  }

  lemma AllCopied(rows0: map<Id, Row>, before: map<Id, Row>, rows: map<Id, Row>, cells: Cells)
    requires Fewer(rows0, before) && Served(before, rows, cells)
    ensures forall id, i :: id in rows0 && id !in WaitingIds(rows) && 0 <= i < |Targets(rows0[id])| ==>
      Same(cells, Targets(rows0[id])[i], cells, rows0[id].ptr, rows0[id].size)
  {
    forall id, i | id in rows0 && id !in WaitingIds(rows) && 0 <= i < |Targets(rows0[id])|
      ensures Same(cells, Targets(rows0[id])[i], cells, rows0[id].ptr, rows0[id].size)
    {
      PlainNone();
      assert Targets(rows0[id]) == Targets(before[id]);
      assert CopiesOf(before[id], rows, cells);
    }
  }

  lemma AllSettled(rows0: map<Id, Row>, before: map<Id, Row>, rows: map<Id, Row>, cells: Cells)
    requires Fewer(rows0, before) && Served(before, rows, cells)
    requires forall id :: id in before ==> Linked(id, before[id])
    requires GreatestBlocked(before, WaitingIds(rows))
    ensures rows == Settled(rows0, WaitingIds(rows)) && GreatestBlocked(rows0, WaitingIds(rows))
  {
    hide CopiesOf, Blocked;
    forall id | id in rows0
      ensures rows[id] == Settled(rows0, WaitingIds(rows))[id]
    {
      assert Linked(id, before[id]);
    }
    forall ids: set<Id>
      ensures Blocked(rows0, ids) <==> Blocked(before, ids)
    {
      BlockedFewer(rows0, before, ids);
    }
  }

  lemma ChangedTwice(a: map<Id, Row>, b: map<Id, Row>, c: map<Id, Row>, cells0: Cells, cells1: Cells, cells2: Cells)
    requires Changed(a, b, cells0, cells1) && Changed(b, c, cells1, cells2)
    requires Narrower(a, b) && Narrower(b, c)
    ensures Changed(a, c, cells0, cells2) && Narrower(a, c)
  {
    forall x | x in cells2 && Free(a, c, x)
      ensures Free(a, b, x) && Free(b, c, x)
    {
    }
  }

  /** Nothing is waiting that was not waiting before. */
  ghost predicate Narrower(a: map<Id, Row>, b: map<Id, Row>) {
    b.Keys == a.Keys && forall id :: id in b ==> b[id] == a[id] || b[id] == Idle(a[id])
  }

  lemma LayoutFewer(keys: set<nat>, before: map<Id, Row>, rows: map<Id, Row>, refOf: map<nat, Id>)
    requires Layout(keys, before, refOf) && Fewer(before, rows)
    ensures Layout(keys, rows, refOf)
  {
    hide Targets, Apart, Within, InMemory, Inside;
    SameTargets(before, rows);
    forall id, other | id in rows && other in rows
      ensures TargetSource(rows[id], rows[other]) && TargetsApart(rows[id], rows[other], id == other)
    {
      assert TargetSource(before[id], before[other]) && TargetsApart(before[id], before[other], id == other);
    }
    forall id | id in rows
      ensures Places(keys, rows[id])
    {
      assert Places(keys, before[id]) && TargetsApart(before[id], before[id], true);
    }
  }

  lemma SameTargets(before: map<Id, Row>, rows: map<Id, Row>)
    requires Fewer(before, rows)
    ensures rows.Keys == before.Keys && forall id :: id in rows ==> Targets(rows[id]) == Targets(before[id])
  {
  }

  lemma FreeFewer(before: map<Id, Row>, rows1: map<Id, Row>, rows: map<Id, Row>)
    requires Fewer(before, rows1)
    ensures forall x :: Free(before, rows, x) ==> Free(rows1, rows, x)
  {
    forall x | Free(before, rows, x)
      ensures Free(rows1, rows, x)
    {
      assert forall id :: id in rows1 ==> Targets(rows1[id]) == Targets(before[id]);
    }
  }

  // ---------- what stays unserved ----------

  /** Everything is served if and only if no ids block each other. */
  lemma AllServed(rows: map<Id, Row>, waiting: set<Id>)
    requires GreatestBlocked(rows, waiting)
    ensures waiting == {} <==> forall ids: set<Id> :: Blocked(rows, ids) ==> ids == {}
  {
  }

  const FIRST: Id := [HASH, 49]     // #1
  const SECOND: Id := [HASH, 50]    // #2

  function MutualRows(a: nat, b: nat, kind: int): map<Id, Row> {
    map[FIRST := Row(kind, 1, a, [], [b], []), SECOND := Row(kind, 1, b, [], [a], [])]
  }

  method ForwardMutual(a: nat, b: nat, kind: int) returns (s: Soap)
    requires a != 0 && b != 0 && a != b
    ensures fresh(s) && fresh(s.iht) && fresh(s.table.Values) && s.Valid() && s.refOf == map[] && s.cells.Keys == {a, b}
    ensures s.rows == map[FIRST := Row(kind, 1, 0, [], [b], []), SECOND := Row(kind, 1, 0, [], [a], [])]
  {
    hide Soap.Valid, Hash;
    assert FIRST[1] != SECOND[1] && [a] + [] == [a] && [b] + [] == [b];
    s := new Soap(map[a := 0, b := 0]);
    var r, status := s.IdForward(FIRST, b, kind, 1, false);
    assert s.rows == map[FIRST := Row(kind, 1, 0, [], [b], [])];
    r, status := s.IdForward(SECOND, a, kind, 1, false);
  }

  /** A word that is to be a copy of another one, which is to be a copy of the first */
  method EnterMutual(a: nat, b: nat, kind: int) returns (s: Soap)
    requires a != 0 && b != 0 && a != b
    ensures fresh(s) && fresh(s.iht) && fresh(s.table.Values) && s.Valid() && s.refOf == map[] && s.cells.Keys == {a, b}
    ensures s.rows == MutualRows(a, b, kind)
  {
    hide Soap.Valid, Hash;
    assert FIRST[1] != SECOND[1];
    s := ForwardMutual(a, b, kind);
    var r, status := s.IdEnter(FIRST, a, kind, 1, a);
    r, status := s.IdEnter(SECOND, b, kind, 1, b);
  }

  /** Two objects that are to be copies of each other still wait when all is resolved, and there is no error. */
  method MutualCopies(a: nat, b: nat, kind: int) returns (s: Soap, status: Status)
    requires a != 0 && b != 0 && a != b
    ensures status == Ok && s.rows.Keys == {FIRST, SECOND} == WaitingIds(s.rows)
  {
    hide Soap.Valid, GreatestBlocked, Layout, Waiting, Blocked, Same, Free;
    s := EnterMutual(a, b, kind);
    ghost var rows := s.rows;
    MutualLayout(s.cells.Keys, rows, FIRST, SECOND, a, b);
    MutualBlocked(rows, FIRST, SECOND, a, b);
    status := s.Resolve();
    GreatestHolds(rows, WaitingIds(s.rows), {FIRST, SECOND});
  }

  lemma GreatestHolds(rows: map<Id, Row>, waiting: set<Id>, ids: set<Id>)
    requires GreatestBlocked(rows, waiting) && Blocked(rows, ids)
    ensures ids <= waiting <= rows.Keys
  {
  }

  lemma MutualBlocked(rows: map<Id, Row>, x: Id, y: Id, a: nat, b: nat)
    requires x in rows && y in rows && rows[x].ptr == a && rows[y].ptr == b && rows[x].size == rows[y].size == 1
    requires rows[x].copies == [b] && rows[y].copies == [a]
    ensures Blocked(rows, {x, y})
  {
    assert Waits(rows[y], a, a + 1) by { assert rows[y].copies[0] == a; }
    assert Waits(rows[x], b, b + 1) by { assert rows[x].copies[0] == b; }
  }

  lemma MutualLayout(keys: set<nat>, rows: map<Id, Row>, x: Id, y: Id, a: nat, b: nat)
    requires a != b && keys == {a, b} && rows.Keys == {x, y} && x != y
    requires rows[x].ptr == a && rows[y].ptr == b && rows[x].size == rows[y].size == 1
    requires rows[x].copies == [b] && rows[y].copies == [a] && rows[x].forwards == rows[y].forwards == []
    ensures Layout(keys, rows, map[])
  {
    hide Targets, Plain;
    OneTarget(rows[x], b);
    OneTarget(rows[y], a);
    forall id, other | id in rows && other in rows
      ensures TargetSource(rows[id], rows[other]) && TargetsApart(rows[id], rows[other], id == other)
    {
      assert (id == x || id == y) && (other == x || other == y);
    }
    forall id | id in rows
      ensures Places(keys, rows[id])
    {
      assert id == x || id == y;
    }
  }

  lemma OneTarget(row: Row, p: nat)
    requires row.copies == [p] && row.forwards == []
    ensures Targets(row) == [p]
  {
  }
}
