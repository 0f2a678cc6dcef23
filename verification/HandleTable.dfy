/** The table of open modules: a linked list of handles with reference counts. */
module HandleTable {
  import opened Bytes

  // ---------- what the table stands for ----------

  /** A module's file name; none for the program itself. */
  type Name = Option<seq<byte>>

  datatype Entry = Entry(name: Name, count: int, resident: bool)

  /** The place of the entry with this name, or the length. */
  function Index(s: seq<Entry>, name: Name): (i: nat)
    ensures i <= |s| && (i < |s| ==> s[i].name == name)
  {
    if s == [] || s[0].name == name then 0 else 1 + Index(s[1..], name)
  }

  /** A module is opened that can be loaded; `resident` is for a new one. */
  function Opened(s: seq<Entry>, name: Name, resident: bool): seq<Entry> {
    var i := Index(s, name);
    if i < |s| then s[i := s[i].(count := s[i].count + 1)] else [Entry(name, 1, resident)] + s
  }

  /** An open module is closed once: it stays as long as it is resident or opened more than once. */
  function Closed(s: seq<Entry>, name: Name): seq<Entry> {
    if Index(s, name) == |s| then s else ClosedAt(s, Index(s, name))
  }

  function ClosedAt(s: seq<Entry>, i: nat): seq<Entry>
    requires i < |s|
  {
    var less := s[i := s[i].(count := s[i].count - 1)];
    if less[i].count <= 0 && !less[i].resident then less[..i] + less[i + 1..] else less
  }

  function Residents(s: seq<Entry>): seq<Entry> {
    if s == [] then [] else (if s[0].resident then [s[0]] else []) + Residents(s[1..])
  }

  function SkipResidents(s: seq<Entry>): seq<Entry> {
    if s == [] || !s[0].resident then s else SkipResidents(s[1..])
  }

  /** Different names, and no module without a use, unless it is resident. */
  predicate Proper(s: seq<Entry>) {
    && (forall i, j :: 0 <= i < j < |s| ==> s[i].name != s[j].name)
    && (forall i :: 0 <= i < |s| ==> s[i].resident || s[i].count >= 1)
  }

  lemma {:induction false} IndexIs(s: seq<Entry>, i: nat)
    requires i < |s| && forall j :: 0 <= j < i ==> s[j].name != s[i].name
    ensures Index(s, s[i].name) == i
  {
    if i > 0 {
      assert s[1..][i - 1] == s[i];
      IndexIs(s[1..], i - 1);
    }
  }

  lemma {:induction false} NotThere(s: seq<Entry>, name: Name)
    ensures Index(s, name) == |s| <==> forall i :: 0 <= i < |s| ==> s[i].name != name
  {
    if s != [] {
      NotThere(s[1..], name);
      assert s == [s[0]] + s[1..];
    }
  }

  // ---------- the list ----------

  /** struct lt__handle */
  class Handle {
    var next: Handle?
    var name: Name
    var count: int
    var resident: bool

    constructor ()
      ensures next == null && name == None && count == 0 && !resident
    {
      next, name, count, resident := null, None, 0, false;
    }
  }

  /** Each handle's link leads to the next one, the last one's nowhere. */
  ghost predicate Linked(handles: Handle?, list: seq<Handle>)
    reads list`next
  {
    && handles == At(list, 0)
    && (forall i :: 0 <= i < |list| ==> list[i].next == At(list, i + 1))
    && (forall i, j :: 0 <= i < j < |list| ==> list[i] != list[j])
  }

  function At(list: seq<Handle>, i: nat): Handle? {
    if i < |list| then list[i] else null
  }

  ghost function Record(h: Handle): Entry
    reads h`name, h`count, h`resident
  {
    Entry(h.name, h.count, h.resident)
  }

  ghost function Entries(list: seq<Handle>): (s: seq<Entry>)
    reads list`name, list`count, list`resident
    ensures |s| == |list|
  {
    if list == [] then [] else [Record(list[0])] + Entries(list[1..])
  }

  lemma {:induction false} EntriesAt(list: seq<Handle>, i: nat)
    requires i < |list|
    ensures Entries(list)[i] == Record(list[i])
  {
    if i > 0 {
      EntriesAt(list[1..], i - 1);
    }
  }

  lemma AllEntries(list: seq<Handle>)
    ensures forall i :: 0 <= i < |list| ==> Entries(list)[i] == Record(list[i])
  {
    forall i | 0 <= i < |list|
      ensures Entries(list)[i] == Record(list[i])
    {
      EntriesAt(list, i);
    }
  }

  lemma {:induction false} EntriesRemoved(list: seq<Handle>, k: nat)
    requires k < |list|
    ensures Entries(list[..k] + list[k + 1..]) == Entries(list)[..k] + Entries(list)[k + 1..]
  {
    if k == 0 {
      assert list[..0] + list[1..] == list[1..];
    } else {
      EntriesRemoved(list[1..], k - 1);
      assert (list[..k] + list[k + 1..])[1..] == list[1..][..k - 1] + list[1..][k..];
    }
  }

  /** The count of one handle changes, and no other entry. */
  method AddToCount(h: Handle, d: int, ghost list: seq<Handle>, ghost i: nat)
    requires i < |list| && h == list[i] && forall j, k :: 0 <= j < k < |list| ==> list[j] != list[k]
    modifies h`count
    ensures h.count == old(h.count) + d
    ensures var e := old(Entries(list)[i]); Entries(list) == old(Entries(list))[i := e.(count := e.count + d)]
  {
    AllEntries(list);
    h.count := h.count + d;
    AllEntries(list);
  }

  class Table {
    var initialized: nat
    var handles: Handle?
    ghost var list: seq<Handle>

    ghost predicate Valid()
      reads this, list
    {
      Linked(handles, list) && Proper(Entries(list))
    }

    ghost function State(): seq<Entry>
      reads this, list
    {
      Entries(list)
    }

    constructor ()
      ensures Valid() && list == [] && initialized == 0
    {
      initialized, handles, list := 0, null, [];
    }

    /** The search of tryall_dlopen: two names are equal, or there is none on either side. */
    method Find(name: Name) returns (h: Handle?)
      requires Valid()
      ensures h == At(list, Index(State(), name))
    {
      h := handles;
      AllEntries(list);
      ghost var k := 0;
      while h != null && h.name != name
        invariant k <= |list| && h == At(list, k)
        invariant forall j :: 0 <= j < k ==> State()[j].name != name
        decreases |list| - k
      {
        h := h.next;
        k := k + 1;
      }
      if k < |list| {
        IndexIs(State(), k);
      } else {
        NotThere(State(), name);
      }
    }

    /** The loaders in turn, until one loads the module. */
    method Load(loaders: seq<bool>) returns (loaded: bool)
      requires loaders != []
      ensures loaded == (true in loaders)
    {
      var i := 0;
      while true
        invariant i < |loaders| && true !in loaders[..i]
        decreases |loaders| - i
      {
        if loaders[i] {
          return true;
        }
        assert loaders[..i + 1] == loaders[..i] + [false];
        i := i + 1;
        if i == |loaders| {
          assert loaders[..i] == loaders;
          return false;
        }
      }
    }

    /** A module with this name is in the table, closed once more than it was opened; it is resident then. */
    ghost predicate Overclosed(name: Name)
      reads this, list
    {
      Index(State(), name) < |State()| && State()[Index(State(), name)].count == -1
    }

    /** try_dlopen with tryall_dlopen.  `advise` is the residency the caller asks for, if any;
        `loaders` says which loaders can load the module.  The table stays a list exactly if the
        module was not closed more often than opened: otherwise its handle is linked in twice. */
    method Open(name: Name, advise: Option<bool>, loaders: seq<bool>) returns (handle: Handle?)
      requires Valid() && loaders != []
      modifies this`handles, this`list, list`count, list`next
      ensures old(Overclosed(name)) ==> forall l: seq<Handle> :: !Linked(handles, l)
      ensures !old(Overclosed(name)) ==>
        && Valid()
        && (handle == null <==> Index(old(State()), name) == |old(State())| && true !in loaders)
        && (handle == null ==> State() == old(State()))
        && (handle != null ==>
            var resident := if advise.Some? then advise.value else name == None;
            handle in list && handle.name == name && State() == Opened(old(State()), name, resident))
        && (list == old(list) || (handle != null && fresh(handle) && list == [handle] + old(list)))
    {
      hide Index, Linked, Entries;
      var found := Find(name);
      ghost var i := Index(State(), name);
      if found != null {
        EntriesAt(list, i);
        UniqueHandles(this);
        OpenedProper(State(), name, false);
        AddToCount(found, 1, list, i);
        handle := found;
      } else {
        OpenedProper(State(), name, if advise.Some? then advise.value else name == None);
        handle := new Handle();
        handle.resident := name == None;
        handle.name := name;
        var loaded := Load(loaders);
        if !loaded {
          return null;
        }
        if advise.Some? {
          handle.resident := advise.value;
        }
      }
      if handle.count == 0 {
        Register(handle, i);
      }
    }

    /** register_handle: a handle that is in the list already gives a cycle. */
    method Register(handle: Handle, ghost i: nat)
      requires Linked(handles, list)
      requires handle !in list || handle == At(list, i)
      modifies this`handles, this`list, handle`count, handle`next
      ensures handle.count == 1
      ensures handle in old(list) ==> forall l: seq<Handle> :: !Linked(handles, l)
      ensures handle !in old(list) ==>
        list == [handle] + old(list) && Linked(handles, list) && State() == [Record(handle)] + old(State())
    {
      ghost var before := list;
      handle.count := 1;
      handle.next := handles;
      handles := handle;
      if handle !in list {
        list := [handle] + list;
        assert list[1..] == before;
      } else {
        forall l: seq<Handle> | Linked(handles, l)
          ensures false
        {
          assert l[0].next == before[0];
          Around(before, l, i, 0);
        }
      }
    }

    /** lt_dlclose; `closeFails` is what closing the module itself reports. */
    method Close(handle: Handle, closeFails: bool, ghost k: nat) returns (errors: nat)
      requires Valid() && k <= |list| && (if k < |list| then handle == list[k] else handle !in list)
      modifies this`handles, this`list, list`next, handle`count
      ensures Valid() && State() == if k < old(|list|) then Closed(old(State()), handle.name) else old(State())
      ensures list == if k < old(|list|) && old(handle.count <= 1 && !handle.resident)
                      then old(list)[..k] + old(list)[k + 1..] else old(list)
      ensures errors == if k == old(|list|) then 1
                        else if old(handle.count <= 1 && !handle.resident) then (if closeFails then 1 else 0)
                        else if handle.resident then 1 else 0
    {
      hide Index, Proper, Entries, Linked, Closed;
      UniqueHandles(this);
      ClosedIs(State(), handle.name);
      var cur, last := FindLast(handle, k);
      errors := 0;
      if cur == null {
        return 1;
      }
      cur := handle;
      EntriesAt(list, k);
      ClosedProper(State(), k);
      AddToCount(cur, -1, list, k);
      if cur.count <= 0 && !cur.resident {
        Unlink(cur, last, k);
        return if closeFails then 1 else 0;
      }
      if handle.resident {
        errors := errors + 1;
      }
    }

    /** The search of lt_dlclose, for a handle at k or in no place: the handle, and the one before it. */
    method FindLast(handle: Handle, ghost k: nat) returns (cur: Handle?, last: Handle?)
      requires Linked(handles, list) && k <= |list| && (if k < |list| then handle == list[k] else handle !in list)
      ensures cur == At(list, k) && last == At(list, if k > 0 then k - 1 else 0)
    {
      cur, last := handles, handles;
      ghost var i := 0;
      while cur != null && handle != cur
        invariant i <= k && cur == At(list, i) && last == At(list, if i > 0 then i - 1 else 0)
        decreases k - i
      {
        last := cur;
        cur := cur.next;
        i := i + 1;
      }
    }

    /** The handle at k is taken out of the list. */
    method Unlink(cur: Handle, last: Handle?, ghost k: nat)
      requires Linked(handles, list) && k < |list| && cur == list[k] && last == At(list, if k > 0 then k - 1 else 0)
      modifies this`handles, this`list, list`next
      ensures list == old(list)[..k] + old(list)[k + 1..]
      ensures Linked(handles, list) && State() == old(State())[..k] + old(State())[k + 1..]
    {
      hide Entries, Linked;
      EntriesRemoved(list, k);
      LinkedNext(handles, list);
      if cur != handles {
        last.next := cur.next;
      } else {
        handles := cur.next;
      }
      ghost var rest := list[..k] + list[k + 1..];
      forall i | 0 <= i < |rest|
        ensures rest[i] == list[if i < k then i else i + 1] && rest[i].next == At(rest, i + 1)
      {
        RestAt(list, k, i);
        assert k > 0 ==> last == list[k - 1];
      }
      RestLinked(handles, list, k);
      list := rest;
    }

    /** Whether a handle is still in the list. */
    method InList(h: Handle) returns (found: bool)
      requires Valid()
      ensures found <==> h in list
    {
      var tmp := handles;
      ghost var i := 0;
      while tmp != null
        invariant i <= |list| && tmp == At(list, i) && h !in list[..i]
        decreases |list| - i
      {
        if tmp == h {
          return true;
        }
        PrefixNext(list, i);
        tmp := tmp.next;
        i := i + 1;
      }
      assert list[..i] == list;
      found := false;
    }

    /** One pass of lt_dlexit: every module that is not resident and used no more than `level` times
        is closed once. */
    method ClosePass(level: int, closeFails: Name -> bool, errors0: nat) returns (sawNonResident: bool, errors: nat)
      requires Valid()
      modifies this`handles, this`list, list`next, list`count
      ensures Valid() && Residents(State()) == Residents(old(State()))
      ensures !sawNonResident ==> State() == Residents(State())
      ensures sawNonResident ==>
        Uses(State()) < Uses(old(State())) || (State() == old(State()) && level < Uses(State()))
      ensures forall j :: 0 <= j < |list| ==> list[j] in old(list)
      ensures errors + Failing(State(), closeFails) == errors0 + Failing(old(State()), closeFails)
    {
      hide Proper, Linked, ClosedAt, Residents, Uses, Entries, Failing;
      errors := errors0;
      sawNonResident := false;
      var cur := handles;
      ghost var k, s := 0, State();
      ghost var all := list;
      Head(this);
      while cur != null
        invariant Valid() && k <= |list| && cur == At(list, k)
        invariant all == old(list) && forall j :: 0 <= j < |list| ==> list[j] in all
        invariant Residents(State()) == Residents(s)
        invariant errors + Failing(State(), closeFails) == errors0 + Failing(s, closeFails)
        invariant !sawNonResident ==> State() == s && forall j :: 0 <= j < k ==> State()[j].resident
        invariant sawNonResident ==> Uses(State()) < Uses(s) || (State() == s && level < Uses(s))
        decreases |list| - k
      {
        var tmp := cur;
        Links(this, k);
        EntriesAt(list, k);
        cur := cur.next;
        if !tmp.resident {
          sawNonResident := true;
          UsesAt(State(), k);
          if tmp.count <= level {
            ClosedResidents(State(), k);
            ClosedFailing(State(), k, closeFails);
            ClosedProper(State(), k);
            assert tmp == list[k] && tmp in list && tmp in all;
            ghost var removed := tmp.count <= 1;
            var e := Close(tmp, closeFails(tmp.name), k);
            if e > 0 {
              errors := errors + 1;
            }
            if !removed {
              k := k + 1;
            }
            if cur != null {
              var found := InList(cur);
              if !found {
                cur := handles;
              }
            }
          } else {
            k := k + 1;
          }
        } else {
          k := k + 1;
        }
      }
      if !sawNonResident {
        AllResident(State());
      }
    }

    /** lt_dlexit, up to the closing of the loaders.  The last call leaves the resident modules with one
        that is not resident somewhere in front of them, and counts the modules whose closing fails. */
    method Exit(closeFails: Name -> bool) returns (errors: nat)
      requires Valid()
      modifies this, list`next, list`count
      ensures Valid()
      ensures initialized == if old(initialized) == 0 then 0 else old(initialized) - 1
      ensures old(initialized) == 0 ==> errors == 1
      ensures State() == if old(initialized) == 1 then Residents(SkipResidents(old(State()))) else old(State())
      ensures old(initialized) == 1 ==>
        && (forall e :: e in State() <==> Survives(old(State()), e))
        && errors == |set i | 0 <= i < |old(State())| && Fails(old(State())[i], closeFails)|
      ensures old(initialized) > 1 ==> errors == 0
    {
      hide Linked, Proper, Entries, Residents, SkipResidents, Survives, Failing, Fails;
      ExitFacts(State(), closeFails);
      if initialized == 0 {
        return 1;
      }
      errors := 0;
      initialized := initialized - 1;
      if initialized > 0 {
        return;
      }
      var handle := handles;
      SkipFirst();
      if handle != null {
        errors := CloseAll(closeFails);
      } else {
        EmptyEntries(list);
      }
    }

    /** The passes for one level after the other, until only resident modules are left. */
    method CloseAll(closeFails: Name -> bool) returns (errors: nat)
      requires Valid()
      modifies this`handles, this`list, list`next, list`count
      ensures Valid() && State() == Residents(old(State())) && errors == Failing(old(State()), closeFails)
    {
      hide Uses, Failing, Residents, Linked, Proper, Entries;
      errors := 0;
      var level := 1;
      while true
        invariant Valid() && Residents(State()) == Residents(old(State()))
        invariant errors + Failing(State(), closeFails) == Failing(old(State()), closeFails)
        invariant forall j :: 0 <= j < |list| ==> list[j] in old(list)
        decreases Uses(State()), Left(Uses(State()), level)
      {
        var sawNonResident;
        sawNonResident, errors := ClosePass(level, closeFails, errors);
        if !sawNonResident {
          NoneFailing(State(), closeFails);
          break;
        }
        level := level + 1;
      }
    }

    method SkipFirst()
      requires Valid()
      modifies this`handles, this`list
      ensures Valid() && State() == SkipResidents(old(State()))
      ensures forall j :: 0 <= j < |list| ==> list[j] in old(list)
      ensures old(handles) == null ==> list == []
    {
      hide Linked, Proper, Entries;
      ghost var s := State();
      LinkedHead(handles, list);
      while handles != null && handles.resident
        invariant Valid() && SkipResidents(State()) == SkipResidents(s)
        invariant forall j :: 0 <= j < |list| ==> list[j] in old(list)
        invariant |list| <= |old(list)| && handles == At(list, 0)
        decreases |list|
      {
        EntriesFirst(list);
        LinkedTail(handles, list);
        ProperTail(State());
        handles := handles.next;
        list := list[1..];
        LinkedHead(handles, list);
      }
      if handles != null {
        EntriesFirst(list);
      }
    }
  }

  /** In a list whose first handle leads into `list`, where it stands itself at i, it comes again. */
  lemma {:induction false} Around(list: seq<Handle>, l: seq<Handle>, i: nat, j: nat)
    requires j <= i < |list| && l != [] && l[0] == list[i] && list[i].next == list[0]
    requires forall k :: 0 <= k < i ==> list[k].next == list[k + 1]
    requires forall k :: 0 <= k < |l| ==> l[k].next == At(l, k + 1)
    requires forall k, m :: 0 <= k < m < |l| ==> l[k] != l[m]
    requires j + 1 < |l| && l[j + 1] == list[j]
    ensures false
    decreases i - j
  {
    if j < i {
      assert l[j + 1].next == list[j + 1];
      Around(list, l, i, j + 1);
    }
  }

  lemma LinkedNext(h: Handle?, list: seq<Handle>)
    requires Linked(h, list)
    ensures h == At(list, 0) && forall i :: 0 <= i < |list| ==> list[i].next == At(list, i + 1)
    ensures forall i, j :: 0 <= i < j < |list| ==> list[i] != list[j]
  {
  }

  lemma RestAt(list: seq<Handle>, k: nat, i: nat)
    requires k < |list| && i < |list| - 1
    ensures var rest := list[..k] + list[k + 1..];
      && rest[i] == list[if i < k then i else i + 1]
      && At(rest, i + 1) == if i + 1 < k then list[i + 1] else At(list, i + 2)
  {
  }

  lemma RestLinked(h: Handle?, list: seq<Handle>, k: nat)
    requires k < |list| && forall i, j :: 0 <= i < j < |list| ==> list[i] != list[j]
    requires var rest := list[..k] + list[k + 1..];
      h == At(rest, 0) && forall i :: 0 <= i < |rest| ==>
        rest[i] == list[if i < k then i else i + 1] && rest[i].next == At(rest, i + 1)
    ensures Linked(h, list[..k] + list[k + 1..])
  {
  }

  lemma LinkedHead(h: Handle?, list: seq<Handle>)
    requires Linked(h, list)
    ensures h == At(list, 0)
  {
  }

  lemma LinkedTail(h: Handle?, list: seq<Handle>)
    requires Linked(h, list) && list != []
    ensures Linked(list[0].next, list[1..])
  {
  }

  lemma EntriesFirst(list: seq<Handle>)
    requires list != []
    ensures Entries(list) != [] && Entries(list)[0] == Record(list[0]) && Entries(list)[1..] == Entries(list[1..])
  {
  }

  lemma ProperTail(s: seq<Entry>)
    requires Proper(s) && s != []
    ensures Proper(s[1..])
  {
  }

  lemma UniqueHandles(t: Table)
    requires t.Valid()
    ensures forall j, k :: 0 <= j < k < |t.list| ==> t.list[j] != t.list[k]
  {
  }

  lemma OpenedProper(s: seq<Entry>, name: Name, resident: bool)
    requires Proper(s)
    ensures Proper(Opened(s, name, resident))
  {
    NotThere(s, name);
  }

  lemma ProperRemoved(s: seq<Entry>, k: nat)
    requires Proper(s) && k < |s|
    ensures Proper(s[..k] + s[k + 1..])
  {
    var r := s[..k] + s[k + 1..];
    assert forall i :: 0 <= i < |r| ==> r[i] == s[if i < k then i else i + 1];
  }

  lemma ClosedIs(s: seq<Entry>, name: Name)
    ensures Closed(s, name) == if Index(s, name) == |s| then s else ClosedAt(s, Index(s, name))
  {
  }

  lemma LessProper(s: seq<Entry>, k: nat)
    requires Proper(s) && k < |s| && (s[k].resident || s[k].count > 1)
    ensures Proper(s[k := s[k].(count := s[k].count - 1)])
  {
  }

  lemma ClosedProper(s: seq<Entry>, k: nat)
    requires Proper(s) && k < |s|
    ensures Index(s, s[k].name) == k && Proper(Closed(s, s[k].name))
  {
    IndexIs(s, k);
    if s[k].resident || s[k].count > 1 {
      LessProper(s, k);
    } else {
      ProperRemoved(s, k);
      hide Proper;
      var less := s[k := s[k].(count := s[k].count - 1)];
      assert less[..k] == s[..k] && less[k + 1..] == s[k + 1..];
    }
  }

  // ---------- shutting down ----------

  /** How often the modules that are not resident are open, together. */
  function Uses(s: seq<Entry>): nat {
    if s == [] then 0
    else (if s[0].resident || s[0].count < 0 then 0 else s[0].count) + Uses(s[1..])
  }

  lemma {:induction false} UsesAt(s: seq<Entry>, k: nat)
    requires k < |s| && !s[k].resident
    ensures s[k].count <= Uses(s)
  {
    if k > 0 {
      UsesAt(s[1..], k - 1);
    }
  }

  /** Closing a module that is not resident takes away one use, and no resident one. */
  lemma {:induction false} ClosedResidents(s: seq<Entry>, k: nat)
    requires k < |s| && !s[k].resident && s[k].count >= 1
    ensures Residents(ClosedAt(s, k)) == Residents(s) && Uses(ClosedAt(s, k)) == Uses(s) - 1
  {
    var less := s[k].(count := s[k].count - 1);
    if k == 0 {
      var r := s[0 := less];
      assert r[..0] + r[1..] == s[1..] && r[1..] == s[1..];
      assert [] + Residents(s[1..]) == Residents(s[1..]);
    } else {
      ClosedResidents(s[1..], k - 1);
      var r := s[k := less];
      var t := s[1..][k - 1 := less];
      assert r[1..] == t && r[..k] + r[k + 1..] == [s[0]] + (t[..k - 1] + t[k..]);
    }
  }

  lemma {:induction false} AllResident(s: seq<Entry>)
    requires forall i :: 0 <= i < |s| ==> s[i].resident
    ensures Residents(s) == s
  {
    if s != [] {
      AllResident(s[1..]);
      assert s == [s[0]] + s[1..];
    }
  }

  /** A module that is not resident, and whose closing reports an error */
  predicate Fails(e: Entry, closeFails: Name -> bool) {
    !e.resident && closeFails(e.name)
  }

  function Failing(s: seq<Entry>, closeFails: Name -> bool): nat {
    if s == [] then 0 else (if Fails(s[0], closeFails) then 1 else 0) + Failing(s[1..], closeFails)
  }

  lemma {:induction false} FailingSet(s: seq<Entry>, closeFails: Name -> bool)
    ensures Failing(s, closeFails) == |set i | 0 <= i < |s| && Fails(s[i], closeFails)|
  {
    hide Fails;
    var all := set i | 0 <= i < |s| && Fails(s[i], closeFails);
    if s == [] {
      assert all == {};
    } else {
      var t := s[..|s| - 1];
      FailingSet(t, closeFails);
      FailingSnoc(t, s[|s| - 1], closeFails);
      assert t + [s[|s| - 1]] == s;
      var some := set i | 0 <= i < |t| && Fails(t[i], closeFails);
      assert all == some + if Fails(s[|s| - 1], closeFails) then {|s| - 1} else {};
    }
  }

  lemma {:induction false} FailingSnoc(s: seq<Entry>, e: Entry, closeFails: Name -> bool)
    ensures Failing(s + [e], closeFails) == Failing(s, closeFails) + if Fails(e, closeFails) then 1 else 0
  {
    hide Fails;
    if s == [] {
      assert s + [e] == [e] && [e][1..] == [];
    } else {
      assert (s + [e])[1..] == s[1..] + [e];
      FailingSnoc(s[1..], e, closeFails);
    }
  }

  lemma {:induction false} FailingSkip(s: seq<Entry>, closeFails: Name -> bool)
    ensures Failing(SkipResidents(s), closeFails) == Failing(s, closeFails)
  {
    if s != [] && s[0].resident {
      FailingSkip(s[1..], closeFails);
    }
  }

  lemma {:induction false} NoneFailing(s: seq<Entry>, closeFails: Name -> bool)
    requires s == Residents(s)
    ensures Failing(s, closeFails) == 0
  {
    hide Residents;
    ResidentsOnly(s);
    assert Residents(s) == s;
    ZeroFailing(s, closeFails);
  }

  lemma {:induction false} ZeroFailing(s: seq<Entry>, closeFails: Name -> bool)
    requires forall i :: 0 <= i < |s| ==> s[i].resident
    ensures Failing(s, closeFails) == 0
  {
    if s != [] {
      ZeroFailing(s[1..], closeFails);
    }
  }

  /** A close counts as failing at most when it takes the module away. */
  lemma {:induction false} ClosedFailing(s: seq<Entry>, k: nat, closeFails: Name -> bool)
    requires k < |s| && !s[k].resident
    ensures Failing(ClosedAt(s, k), closeFails) ==
      Failing(s, closeFails) - if s[k].count <= 1 && closeFails(s[k].name) then 1 else 0
  {
    var less := s[k].(count := s[k].count - 1);
    if k == 0 {
      var r := s[0 := less];
      assert r[..0] + r[1..] == s[1..] && r[1..] == s[1..];
    } else {
      ClosedFailing(s[1..], k - 1, closeFails);
      var r := s[k := less];
      var t := s[1..][k - 1 := less];
      assert r[1..] == t && r[..k] + r[k + 1..] == [s[0]] + (t[..k - 1] + t[k..]);
    }
  }

  /** Of two parts of a table the resident modules follow each other in order. */
  lemma {:induction false} ResidentsConcat(a: seq<Entry>, b: seq<Entry>)
    ensures Residents(a + b) == Residents(a) + Residents(b)
  {
    hide Residents;
    if a == [] {
      ResidentsNone();
      assert a + b == b;
    } else {
      ResidentsFirst(a);
      ResidentsFirst(a + b);
      assert (a + b)[1..] == a[1..] + b;
      ResidentsConcat(a[1..], b);
      ConcatAssociative(if a[0].resident then [a[0]] else [], Residents(a[1..]), Residents(b));
    }
  }

  lemma ResidentsFirst(s: seq<Entry>)
    requires s != []
    ensures Residents(s) == (if s[0].resident then [s[0]] else []) + Residents(s[1..])
  {
  }

  lemma ResidentsNone()
    ensures Residents([]) == []
  {
  }

  lemma ResidentsOne(e: Entry)
    ensures Residents([e]) == if e.resident then [e] else []
  {
    assert [e][1..] == [];
  }

  lemma {:induction false} ResidentsOnly(s: seq<Entry>)
    ensures forall e :: e in Residents(s) <==> e in s && e.resident
  {
    if s != [] {
      ResidentsOnly(s[1..]);
      assert s == [s[0]] + s[1..];
    }
  }

  /** Those in front of the first module that is not resident are skipped. */
  lemma {:induction false} SkippedAt(s: seq<Entry>, k: nat)
    requires k <= |s| && (forall i :: 0 <= i < k ==> s[i].resident) && (k < |s| ==> !s[k].resident)
    ensures SkipResidents(s) == s[k..]
  {
    if k > 0 {
      SkippedAt(s[1..], k - 1);
    }
  }

  /** A resident module with one in front of it that is not resident */
  ghost predicate Survives(s: seq<Entry>, e: Entry) {
    exists i, j :: 0 <= j < i < |s| && s[i] == e && e.resident && !s[j].resident
  }

  lemma {:induction false} FirstNot(s: seq<Entry>) returns (k: nat)
    ensures k <= |s| && (forall i :: 0 <= i < k ==> s[i].resident) && (k < |s| ==> !s[k].resident)
  {
    k := 0;
    while k < |s| && s[k].resident
      invariant k <= |s| && forall i :: 0 <= i < k ==> s[i].resident
    {
      k := k + 1;
    }
  }

  /** A module is still in the table after the last lt_dlexit exactly if it is resident and one in
      front of it is not. */
  lemma SurvivesSkip(s: seq<Entry>)
    ensures forall e :: e in Residents(SkipResidents(s)) <==> Survives(s, e)
  {
    hide Residents, SkipResidents;
    var k := FirstNot(s);
    SkippedAt(s, k);
    ResidentsOnly(s[k..]);
    forall e
      ensures e in s[k..] && e.resident <==> Survives(s, e)
    {
      if e in s[k..] && e.resident {
        var i :| 0 <= i < |s[k..]| && s[k..][i] == e;
        assert s[k + i] == e && k < k + i;
      }
      if i, j :| 0 <= j < i < |s| && s[i] == e && e.resident && !s[j].resident {
        assert s[k..][i - k] == e;
      }
    }
  }

  lemma ExitFacts(s: seq<Entry>, closeFails: Name -> bool)
    ensures forall e :: e in Residents(SkipResidents(s)) <==> Survives(s, e)
    ensures Failing(SkipResidents(s), closeFails) == |set i | 0 <= i < |s| && Fails(s[i], closeFails)|
    ensures Failing([], closeFails) == 0 && Residents([]) == []
  {
    hide Survives, Fails;
    SurvivesSkip(s);
    FailingSet(s, closeFails);
    FailingSkip(s, closeFails);
  }

  lemma Head(t: Table)
    requires t.Valid()
    ensures t.handles == At(t.list, 0)
  {
  }

  lemma Links(t: Table, k: nat)
    requires t.Valid() && k < |t.list|
    ensures t.list[k].next == At(t.list, k + 1)
    ensures k + 1 < |t.list| ==> t.list[k] != t.list[k + 1]
    ensures t.State()[k].resident || t.State()[k].count >= 1
  {
  }

  ghost function Left(uses: nat, level: int): nat {
    if level < uses then uses - level else 0
  }

  lemma EmptyEntries(list: seq<Handle>)
    ensures list == [] <==> Entries(list) == []
  {
  }

  // ---------- runs ----------

  datatype Call = Opening(name: Name, advise: Option<bool>, loads: bool) | Closing(name: Name)

  function Step(s: seq<Entry>, c: Call): seq<Entry> {
    match c
    case Opening(name, advise, loads) =>
      if loads || Index(s, name) < |s| then Opened(s, name, if advise.Some? then advise.value else name == None) else s
    case Closing(name) => Closed(s, name)
  }

  /** The table after a run of calls. */
  function Run(calls: seq<Call>): seq<Entry> {
    if calls == [] then [] else Step(Run(calls[..|calls| - 1]), calls[|calls| - 1])
  }

  /** How often a call changes the count of a module: 1 for an opening that succeeds, -1 for closing
      a module that is in the table. */
  function Effect(s: seq<Entry>, c: Call, name: Name): int {
    if c.name != name then 0
    else if c.Opening? then (if c.loads || Index(s, name) < |s| then 1 else 0)
    else if Index(s, name) < |s| then -1 else 0
  }

  function Opens(calls: seq<Call>, name: Name): nat {
    if calls == [] then 0
    else
      var front := calls[..|calls| - 1];
      Opens(front, name) + if Effect(Run(front), calls[|calls| - 1], name) == 1 then 1 else 0
  }

  function Closes(calls: seq<Call>, name: Name): nat {
    if calls == [] then 0
    else
      var front := calls[..|calls| - 1];
      Closes(front, name) + if Effect(Run(front), calls[|calls| - 1], name) == -1 then 1 else 0
  }

  function Count(s: seq<Entry>, name: Name): int {
    var i := Index(s, name);
    if i < |s| then s[i].count else 0
  }

  lemma StepProper(s: seq<Entry>, c: Call)
    requires Proper(s)
    ensures Proper(Step(s, c))
  {
    match c
    case Opening(name, advise, _) => OpenedProper(s, name, if advise.Some? then advise.value else name == None);
    case Closing(name) =>
      if Index(s, name) < |s| {
        ClosedProper(s, Index(s, name));
      }
  }

  lemma CountFirst(s: seq<Entry>, name: Name)
    ensures Count(s, name) == if s == [] then 0 else if s[0].name == name then s[0].count else Count(s[1..], name)
  {
  }

  lemma {:induction false} CountUpdated(s: seq<Entry>, i: nat, count: int, name: Name)
    requires i < |s| && forall j :: 0 <= j < i ==> s[j].name != s[i].name
    ensures Count(s[i := s[i].(count := count)], name) == if name == s[i].name then count else Count(s, name)
  {
    hide Count;
    var r := s[i := s[i].(count := count)];
    CountFirst(r, name);
    CountFirst(s, name);
    if i == 0 {
      assert r[1..] == s[1..];
    } else {
      assert r[1..] == s[1..][i - 1 := s[i].(count := count)];
      CountUpdated(s[1..], i - 1, count, name);
    }
  }

  lemma {:induction false} CountRemoved(s: seq<Entry>, i: nat, name: Name)
    requires Proper(s) && i < |s|
    ensures Count(s[..i] + s[i + 1..], name) == if name == s[i].name then 0 else Count(s, name)
  {
    hide Proper, Count;
    ProperHead(s);
    var r := s[..i] + s[i + 1..];
    CountFirst(r, name);
    CountFirst(s, name);
    if i == 0 {
      assert r == s[1..];
      CountNone(s[1..], s[0].name);
    } else {
      assert r[1..] == s[1..][..i - 1] + s[1..][i..] && r[0] == s[0];
      assert s[i] == s[1..][i - 1];
      CountRemoved(s[1..], i - 1, name);
    }
  }

  lemma ProperHead(s: seq<Entry>)
    requires Proper(s) && s != []
    ensures Proper(s[1..]) && forall i :: 0 <= i < |s[1..]| ==> s[1..][i].name != s[0].name
  {
  }

  lemma CountNone(s: seq<Entry>, name: Name)
    requires forall i :: 0 <= i < |s| ==> s[i].name != name
    ensures Count(s, name) == 0
  {
    NotThere(s, name);
  }

  lemma DistinctNames(s: seq<Entry>, i: nat)
    requires Proper(s) && i < |s|
    ensures s[i].resident || s[i].count >= 1
    ensures forall j :: 0 <= j < i ==> s[j].name != s[i].name
  {
  }

  lemma StepCount(s: seq<Entry>, c: Call, name: Name)
    requires Proper(s)
    ensures Count(Step(s, c), name) == Count(s, name) + Effect(s, c, name)
  {
    hide Proper, Count;
    var i := Index(s, c.name);
    if i < |s| {
      DistinctNames(s, i);
      CountUpdated(s, i, s[i].count + 1, name);
      CountUpdated(s, i, s[i].count - 1, name);
      CountRemoved(s, i, name);
      CountIs(s, i);
      var less := s[i := s[i].(count := s[i].count - 1)];
      assert less[..i] == s[..i] && less[i + 1..] == s[i + 1..];
    } else if c.Opening? && c.loads {
      CountFirst(Step(s, c), name);
      CountMissing(s, c.name);
      assert Step(s, c)[1..] == s;
    }
  }

  lemma CountIs(s: seq<Entry>, i: nat)
    requires i < |s| && Index(s, s[i].name) == i
    ensures Count(s, s[i].name) == s[i].count
  {
  }

  lemma CountMissing(s: seq<Entry>, name: Name)
    requires Index(s, name) == |s|
    ensures Count(s, name) == 0
  {
  }

  /** In every run the names are different, a module that is not resident is in the table exactly
      while it is in use, and the count is the number of openings less the number of closings. */
  lemma {:induction false} RunCounts(calls: seq<Call>, name: Name)
    ensures Proper(Run(calls)) && Count(Run(calls), name) == Opens(calls, name) - Closes(calls, name)
  {
    if calls != [] {
      var front, last := calls[..|calls| - 1], calls[|calls| - 1];
      RunCounts(front, name);
      StepProper(Run(front), last);
      StepCount(Run(front), last, name);
    }
  }

  lemma NotInUse(calls: seq<Call>, name: Name)
    ensures var s, i := Run(calls), Index(Run(calls), name);
      i == |s| || !s[i].resident ==> (i < |s| <==> Opens(calls, name) - Closes(calls, name) >= 1)
  {
    RunCounts(calls, name);
  }

  /** No module is closed more often than opened, at any time. */
  ghost predicate Balanced(calls: seq<Call>) {
    forall k, name :: 0 <= k <= |calls| ==> Closes(calls[..k], name) <= Opens(calls[..k], name)
  }

  /** Performs a run on a new table. */
  method Perform(calls: seq<Call>) returns (t: Table)
    requires Balanced(calls)
    ensures t.Valid() && t.State() == Run(calls)
  {
    hide Table.Valid, Table.State, Step, Count;
    t := new Table();
    NoEntries(t);
    for k := 0 to |calls|
      invariant fresh(t) && t.Valid() && (forall j :: 0 <= j < |t.list| ==> fresh(t.list[j]))
      invariant t.State() == Run(calls[..k])
    {
      PrefixNext(calls, k);
      RunCounts(calls[..k], calls[k].name);
      Act(t, calls[k]);
    }
    assert calls[..|calls|] == calls;
  }

  lemma NoEntries(t: Table)
    requires t.list == []
    ensures t.State() == []
  {
  }

  /** One call, for a module that was not closed more often than opened */
  method Act(t: Table, c: Call)
    requires t.Valid() && Count(t.State(), c.name) >= 0
    modifies t`handles, t`list, t.list`count, t.list`next
    ensures t.Valid() && t.State() == Step(old(t.State()), c)
    ensures forall j :: 0 <= j < |t.list| ==> t.list[j] in old(t.list) || fresh(t.list[j])
  {
    hide Index, Linked, Proper, Entries, Opened, ClosedAt;
    match c
    case Opening(name, advise, loads) =>
      var handle := t.Open(name, advise, [loads]);
    case Closing(name) =>
      var handle := t.Find(name);
      if handle != null {
        EntriesAt(t.list, Index(t.State(), name));
        var e := t.Close(handle, false, Index(t.State(), name));
      }
  }

  /** A module that was not in the table comes in front, all others stay as they are. */
  lemma OpenedNew(s: seq<Entry>, name: Name, resident: bool)
    requires forall i :: 0 <= i < |s| ==> s[i].name != name
    ensures Index(s, name) == |s| && Opened(s, name, resident) == [Entry(name, 1, resident)] + s
  {
    NotThere(s, name);
  }

  /** One that was is counted. */
  lemma OpenedAgain(s: seq<Entry>, i: nat, resident: bool)
    requires Proper(s) && i < |s|
    ensures Opened(s, s[i].name, resident) == s[..i] + [Entry(s[i].name, s[i].count + 1, s[i].resident)] + s[i + 1..]
  {
    IndexIs(s, i);
  }

  /** Closing counts it down; when it is not in use any more and not resident, it goes. */
  lemma ClosedOnce(s: seq<Entry>, i: nat)
    requires Proper(s) && i < |s|
    ensures var rest := if s[i].resident || s[i].count > 1
                        then [Entry(s[i].name, s[i].count - 1, s[i].resident)] else [];
      Closed(s, s[i].name) == s[..i] + rest + s[i + 1..]
  {
    IndexIs(s, i);
    assert s[..i] + [] == s[..i];
  }

  lemma ClosedOnly(name: Name, count: int)
    ensures Closed([Entry(name, count, true)], name) == [Entry(name, count - 1, true)]
    ensures Index([Entry(name, count, true)], name) == 0
  {
  }

  lemma OnlyIndex(name: Name, count: int)
    ensures Index([Entry(name, count, true)], name) == 0
  {
  }

  /** A resident module that is opened, closed twice and opened again: the table is no list any more. */
  method Overclose(name: Name) returns (t: Table)
    ensures forall l: seq<Handle> :: !Linked(t.handles, l)
  {
    hide Linked, Proper, Entries, Opened, Closed, ClosedAt, Index;
    OpenedNew([], name, true);
    ClosedOnly(name, 1);
    ClosedOnly(name, 0);
    OnlyIndex(name, -1);
    t := new Table();
    EmptyEntries(t.list);
    var handle := t.Open(name, Some(true), [true]);
    assert t.State() == [Entry(name, 1, true)];
    EntriesAt(t.list, 0);
    var errors := t.Close(handle, false, 0);
    assert t.State() == [Entry(name, 0, true)];
    EntriesAt(t.list, 0);
    errors := t.Close(handle, false, 0);
    assert t.State() == [Entry(name, -1, true)];
    handle := t.Open(name, None, [true]);
  }

  /** A resident module that was opened last is forgotten when all is shut down. */
  method Forgotten(name: Name) returns (t: Table, ghost before: seq<Entry>)
    ensures before == [Entry(name, 1, true)] && t.Valid() && t.State() == []
  {
    hide Linked, Proper;
    t := new Table();
    EmptyEntries(t.list);
    t.initialized := 1;
    var handle := t.Open(name, Some(true), [true]);
    before := t.State();
    var errors := t.Exit(n => false);
  }

  /** Three modules, the last one opened in front */
  method OpenThree(r: Name, s: Name, n: Name) returns (t: Table)
    requires r != s && s != n && n != r
    ensures fresh(t) && (forall j :: 0 <= j < |t.list| ==> fresh(t.list[j])) && t.Valid() && t.initialized == 1
    ensures t.State() == [Entry(r, 1, true), Entry(s, 1, true), Entry(n, 1, false)]
  {
    hide Linked, Proper, Entries, Opened, Index;
    OpenedNew([], n, false);
    OpenedNew([Entry(n, 1, false)], s, true);
    OpenedNew([Entry(s, 1, true), Entry(n, 1, false)], r, true);
    t := new Table();
    EmptyEntries(t.list);
    t.initialized := 1;
    var handle := t.Open(n, Some(false), [true]);
    assert t.State() == [Entry(n, 1, false)];
    handle := t.Open(s, Some(true), [true]);
    assert t.State() == [Entry(s, 1, true), Entry(n, 1, false)];
    handle := t.Open(r, Some(true), [true]);
  }

  /** And so are two resident modules in front, while the one behind them is closed. */
  method TwoForgotten(r: Name, s: Name, n: Name) returns (t: Table, ghost before: seq<Entry>)
    requires r != s && s != n && n != r
    ensures before == [Entry(r, 1, true), Entry(s, 1, true), Entry(n, 1, false)] && t.Valid() && t.State() == []
  {
    hide Table.Valid, Table.State, Residents, SkipResidents;
    t := OpenThree(r, s, n);
    before := t.State();
    SkippedAt(before, 2);
    assert before[2..] == [Entry(n, 1, false)];
    ResidentsOne(Entry(n, 1, false));
    var errors := t.Exit(name => false);
  }
}
