/** The tables of a worker: open ports, and the lists by id and by source address. */
module Registry {
  import opened Bytes
  import opened StreamLists

  /** The size of the buffer a packet is received in */
  const BUFFER: nat := 2048

  /** table[key] of a hash map, which finds 0 for a missing key */
  function Get<K>(table: map<K, int>, key: K): int {
    if key in table then table[key] else 0
  }

  /** The lists whose source has this port. */
  function Ids(at: map<int, Addr>, port: int): set<int> {
    set id | id in at && at[id].port == port
  }

  function On(at: map<int, Addr>, port: int): nat {
    |Ids(at, port)|
  }

  lemma OneMore(at: map<int, Addr>, id: int, addr: Addr, port: int)
    requires id !in at
    ensures On(at[id := addr], port) == On(at, port) + if addr.port == port then 1 else 0
  {
    var more := at[id := addr];
    if addr.port == port {
      assert Ids(more, port) == Ids(at, port) + {id};
    } else {
      assert Ids(more, port) == Ids(at, port);
    }
  }

  lemma OneLess(at: map<int, Addr>, id: int, port: int)
    requires id in at
    ensures On(at - {id}, port) == On(at, port) - if at[id].port == port then 1 else 0
  {
    OneMore(at - {id}, id, at[id], port);
    assert (at - {id})[id := at[id]] == at;
  }

  lemma AllMore(at: map<int, Addr>, id: int, addr: Addr)
    requires id !in at
    ensures forall p :: On(at[id := addr], p) == On(at, p) + if p == addr.port then 1 else 0
  {
    forall p
      ensures On(at[id := addr], p) == On(at, p) + if p == addr.port then 1 else 0
    {
      OneMore(at, id, addr, p);
    }
  }

  lemma AllLess(at: map<int, Addr>, id: int)
    requires id in at
    ensures forall p :: On(at - {id}, p) == On(at, p) - if p == at[id].port then 1 else 0
  {
    forall p
      ensures On(at - {id}, p) == On(at, p) - if p == at[id].port then 1 else 0
    {
      OneLess(at, id, p);
    }
  }

  lemma SomeOn(at: map<int, Addr>, id: int)
    requires id in at
    ensures On(at, at[id].port) > 0
  {
    assert id in Ids(at, at[id].port);
  }

  lemma NoneOn(at: map<int, Addr>, port: int)
    ensures On(at, port) == 0 <==> forall id :: id in at ==> at[id].port != port
  {
    if forall id :: id in at ==> at[id].port != port {
      assert Ids(at, port) == {};
    }
    if id :| id in at && at[id].port == port {
      SomeOn(at, id);
    }
  }

  /** A port is open while it has sources, and the count of its listeners is their number. */
  ghost predicate Counts(at: map<int, Addr>, listener: map<int, int>, open: set<int>) {
    && (forall p :: Get(listener, p) == On(at, p))
    && (forall p :: p in open <==> On(at, p) > 0)
  }

  /** One more source and one more listener, on a port that is open now. */
  lemma CountsMore(at: map<int, Addr>, l: map<int, int>, open: set<int>, l': map<int, int>, open': set<int>,
                   id: int, addr: Addr)
    requires Counts(at, l, open) && id !in at
    requires forall p :: Get(l', p) == Get(l, p) + if p == addr.port then 1 else 0
    requires forall p :: p in open' <==> p in open || p == addr.port
    ensures Counts(at[id := addr], l', open')
  {
    hide On, Get;
    AllMore(at, id, addr);
    forall p
      ensures p in open' <==> On(at[id := addr], p) > 0
    {
      assert On(at, p) >= 0 && (p in open <==> On(at, p) > 0);
    }
  }

  /** One source and one listener less, and the port is closed with the last one. */
  lemma CountsLess(at: map<int, Addr>, l: map<int, int>, open: set<int>, l': map<int, int>, open': set<int>, id: int)
    requires Counts(at, l, open) && id in at
    requires forall p :: Get(l', p) == Get(l, p) - if p == at[id].port then 1 else 0
    requires forall p :: p in open' <==> p in open && !(p == at[id].port && Get(l, p) == 1)
    ensures Counts(at - {id}, l', open')
  {
    hide On, Get;
    AllLess(at, id);
    forall p
      ensures p in open' <==> On(at - {id}, p) > 0
    {
      assert Get(l, p) == On(at, p);
    }
  }

  lemma CountsKept(at: map<int, Addr>, l: map<int, int>, open: set<int>, l': map<int, int>, open': set<int>)
    requires Counts(at, l, open) && forall p :: Get(l', p) == Get(l, p)
    requires forall p :: p in open' <==> p in open
    ensures Counts(at, l', open')
  {
  }

  lemma CountAt(at: map<int, Addr>, l: map<int, int>, open: set<int>, p: int)
    requires Counts(at, l, open)
    ensures Get(l, p) == On(at, p) && (p in open <==> On(at, p) > 0)
  {
  }

  /** The ids by address, which may have zeros, are the inverse of the addresses by id. */
  ghost predicate Forwards(forwarding: map<Addr, int>, at: map<int, Addr>) {
    && (forall id :: id in at ==> Get(forwarding, at[id]) == id)
    && (forall a :: a in forwarding && forwarding[a] != 0 ==> forwarding[a] in at && at[forwarding[a]] == a)
  }

  lemma ForwardsMore(forwarding: map<Addr, int>, at: map<int, Addr>, id: int, addr: Addr)
    requires Forwards(forwarding, at) && id != 0 && 0 !in at
    requires if id in at then at[id] == addr else Get(forwarding, addr) == 0
    ensures Forwards(forwarding[addr := id], at[id := addr])
  {
  }

  lemma ForwardsLess(forwarding: map<Addr, int>, at: map<int, Addr>, id: int)
    requires Forwards(forwarding, at) && id in at && 0 !in at
    ensures Forwards(forwarding - {at[id]}, at - {id})
  {
    forall other | other in at && other != id
      ensures at[other] != at[id]
    {
      assert Get(forwarding, at[other]) == other;
    }
  }

  lemma ForwardsZero(forwarding: map<Addr, int>, at: map<int, Addr>, addr: Addr)
    requires Forwards(forwarding, at) && addr !in forwarding && 0 !in at
    ensures Forwards(forwarding[addr := 0], at)
  {
  }

  /** The lists by id, which may have entries without a list */
  ghost predicate Manages(management: map<int, StreamList?>, lists: map<int, StreamList>) {
    && (forall id :: id in lists ==> id in management && management[id] == lists[id])
    && (forall id :: id in management && management[id] != null ==> id in lists)
  }

  lemma ManagesMore(management: map<int, StreamList?>, lists: map<int, StreamList>, id: int, list: StreamList)
    requires Manages(management, lists)
    ensures Manages(management[id := list], lists[id := list])
  {
  }

  lemma ManagesLess(management: map<int, StreamList?>, lists: map<int, StreamList>, id: int)
    requires Manages(management, lists)
    ensures Manages(management - {id}, lists - {id})
  {
  }

  /** No list has two destinations with the same id. */
  ghost predicate UniqueLists(dests: map<int, seq<Stream>>) {
    forall id :: id in dests ==> UniqueIds(dests[id])
  }

  /** `at` has the addresses of the sources of these lists. */
  ghost predicate Addressed(lists: map<int, StreamList>, at: map<int, Addr>)
    reads lists.Values`listId, lists.Values`source
  {
    lists.Keys == at.Keys && forall id :: id in lists ==> lists[id].listId == id && lists[id].source.addr == at[id]
  }

  /** `dests` has the destinations of these lists. */
  ghost predicate Holding(lists: map<int, StreamList>, dests: map<int, seq<Stream>>)
    reads lists.Values`destinations
  {
    lists.Keys == dests.Keys && forall id :: id in lists ==> lists[id].destinations == dests[id]
  }

  lemma AddressedMore(lists: map<int, StreamList>, at: map<int, Addr>, id: int, list: StreamList)
    requires Addressed(lists, at) && list.listId == id
    ensures Addressed(lists[id := list], at[id := list.source.addr])
  {
  }

  lemma AddressedLess(lists: map<int, StreamList>, at: map<int, Addr>, id: int)
    requires Addressed(lists, at)
    ensures Addressed(lists - {id}, at - {id})
  {
  }

  lemma SameAddress(lists: map<int, StreamList>, at: map<int, Addr>, id: int)
    requires Addressed(lists, at)
    ensures id in lists ==> id in at && lists[id].listId == id && lists[id].source.addr == at[id]
  {
  }

  lemma HoldingMore(lists: map<int, StreamList>, dests: map<int, seq<Stream>>, id: int, list: StreamList)
    requires Holding(lists, dests)
    ensures Holding(lists[id := list], dests[id := list.destinations])
  {
  }

  lemma HoldingLess(lists: map<int, StreamList>, dests: map<int, seq<Stream>>, id: int)
    requires Holding(lists, dests)
    ensures Holding(lists - {id}, dests - {id})
  {
  }

  /** Lists that were there before stay the same objects. */
  twostate predicate OldOrNew(before: map<int, StreamList>, new lists: map<int, StreamList>) {
    forall id :: id in lists ==> (id in before && lists[id] == before[id]) || fresh(lists[id])
  }

  class Worker {
    var fdPort: map<int, int>
    var portFd: map<int, int>
    var portListener: map<int, int>
    var management: map<int, StreamList?>
    var forwarding: map<Addr, int>
    ghost var lists: map<int, StreamList>    // the lists that are managed
    ghost var at: map<int, Addr>             // the addresses of their sources
    ghost var dests: map<int, seq<Stream>>   // their destinations

    /** The tables for lists agree: the lists by id, which may have entries without a list, and the ids
        by source address, which may have zeros. */
    ghost predicate Routed()
      reads this`management, this`forwarding, this`lists, this`at, lists.Values`listId, lists.Values`source
    {
      && 0 !in lists && lists.Keys == at.Keys
      && Addressed(lists, at) && Manages(management, lists) && Forwards(forwarding, at)
    }

    /** `dests` is what the lists hold. */
    ghost predicate Held()
      reads this`lists, this`dests, lists.Values`destinations
    {
      Holding(lists, dests)
    }

    /** The two tables for sockets are inverse to each other. */
    ghost predicate Inverse()
      reads this`portFd, this`fdPort
    {
      && (forall p :: p in portFd ==> portFd[p] in fdPort && fdPort[portFd[p]] == p)
      && (forall fd :: fd in fdPort ==> fdPort[fd] in portFd && portFd[fdPort[fd]] == fd)
    }

    ghost predicate Counted()
      reads this`portFd, this`portListener, this`at
    {
      Counts(at, portListener, portFd.Keys)
    }

    ghost predicate Valid()
      reads this, lists.Values
    {
      Routed() && Held() && UniqueLists(dests) && Inverse() && Counted()
    }

    constructor ()
      ensures Valid() && lists == map[] && at == map[] && dests == map[]
      ensures portFd == map[] && fdPort == map[] && portListener == map[]
    {
      fdPort, portFd, portListener, management, forwarding := map[], map[], map[], map[], map[];
      lists, at, dests := map[], map[], map[];
    }

    /** add_socket; `fd` is what init_socket returns, a new descriptor or -1. */
    method AddSocket(port: int, fd: int) returns (ret: int)
      requires Inverse() && fd !in fdPort && (Get(portListener, port) == 0 ==> port !in portFd)
      modifies this`portListener, this`portFd, this`fdPort
      ensures Inverse()
      ensures ret == if old(Get(portListener, port)) != 0 then 0 else if fd == -1 then -1 else 1
      ensures forall p :: Get(portListener, p) == old(Get(portListener, p)) + if p == port && ret != -1 then 1 else 0
      ensures forall p :: p in portFd <==> p in old(portFd) || (p == port && ret == 1)
      ensures ret == 1 ==> portFd[port] == fd
      ensures fdPort.Keys <= old(fdPort.Keys) + if fd == -1 then {} else {fd}
    {
      var listeners := Get(portListener, port);
      portListener := portListener[port := listeners];
      if listeners != 0 {
        portListener := portListener[port := listeners + 1];
        return 0;
      }
      if fd == -1 {
        return -1;
      }
      portFd := portFd[port := fd];
      fdPort := fdPort[fd := port];
      portListener := portListener[port := 1];
      ret := 1;
    }

    /** remove_socket, for an open port */
    method RemoveSocket(port: int) returns (closed: bool)
      requires Inverse() && port in portFd
      modifies this`portListener, this`portFd, this`fdPort
      ensures Inverse() && (closed <==> old(Get(portListener, port)) == 1)
      ensures forall p :: Get(portListener, p) == old(Get(portListener, p)) - if p == port then 1 else 0
      ensures forall p :: p in portFd <==> p in old(portFd) && !(closed && p == port)
      ensures fdPort.Keys <= old(fdPort.Keys)
    {
      portListener := portListener[port := Get(portListener, port) - 1];
      if portListener[port] == 0 {
        var fd := portFd[port];
        portFd := portFd - {port};
        fdPort := fdPort - {fd};
        portListener := portListener - {port};
        return true;
      }
      closed := false;
    }

    /** addStreamList, for a new list or one that is there already */
    method AddStreamList(listId: int, list: StreamList)
      requires Routed() && Held() && listId != 0 && list.listId == listId
      requires if listId in lists then lists[listId] == list else Get(forwarding, list.source.addr) == 0
      modifies this`management, this`forwarding, this`lists, this`at, this`dests
      ensures Routed() && Held() && forwarding == old(forwarding)[list.source.addr := listId]
      ensures lists == old(lists)[listId := list] && at == old(at)[listId := list.source.addr]
      ensures dests == old(dests)[listId := list.destinations]
    {
      hide Forwards, Manages, Addressed, Holding, Get;
      SameAddress(lists, at, listId);
      AddressedMore(lists, at, listId, list);
      HoldingMore(lists, dests, listId, list);
      ManagesMore(management, lists, listId, list);
      ForwardsMore(forwarding, at, listId, list.source.addr);
      management := management[listId := list];
      forwarding := forwarding[list.source.addr := listId];
      lists := lists[listId := list];
      at := at[listId := list.source.addr];
      dests := dests[listId := list.destinations];
    }

    /** removeStreamList, for a list that is managed */
    method RemoveStreamList(listId: int)
      requires Routed() && Held() && listId in lists
      modifies this`management, this`forwarding, this`lists, this`at, this`dests
      ensures Routed() && Held()
      ensures lists == old(lists) - {listId} && at == old(at) - {listId} && dests == old(dests) - {listId}
    {
      hide Forwards, Addressed, Holding, Get;
      SameAddress(lists, at, listId);
      AddressedLess(lists, at, listId);
      HoldingLess(lists, dests, listId);
      ManagesLess(management, lists, listId);
      var tmp := management[listId];
      ForwardsLess(forwarding, at, listId);
      forwarding := forwarding - {tmp.source.addr};
      management := management - {listId};
      lists := lists - {listId};
      at := at - {listId};
      dests := dests - {listId};
    }

    /** A destination for the list with this id */
    method AddTo(ghost id: int, list: StreamList, stream: Stream) returns (ok: bool)
      requires Routed() && Held() && id in lists && lists[id] == list
      modifies this`dests, list`destinations
      ensures Held() && dests == old(dests)[id := Added(old(dests)[id], stream)]
      ensures ok <==> !Has(old(dests)[id], stream.id)
    {
      hide Forwards;
      ok := list.AddDestination(stream);
      dests := dests[id := list.destinations];
    }

    method RemoveFrom(ghost id: int, list: StreamList, destId: int)
      requires Routed() && Held() && id in lists && lists[id] == list && Has(list.destinations, destId)
      modifies this`dests, list`destinations
      ensures Held() && dests == old(dests)[id := Removed(old(dests)[id], destId)]
    {
      hide Forwards;
      var ok := list.RemDestination(destId);
      dests := dests[id := list.destinations];
    }

    /** getStreamList: a missing id gets an entry without a list. */
    method GetStreamList(listId: int) returns (list: StreamList?)
      requires Routed()
      modifies this`management
      ensures Routed()
      ensures list == if listId in lists then lists[listId] else null
    {
      if listId !in management {
        management := management[listId := null];
      }
      list := management[listId];
    }

    /** getListIdBySocket: a missing address gets a zero. */
    method GetListIdBySocket(addr: Addr) returns (id: int)
      requires Routed()
      modifies this`forwarding
      ensures Routed() && forwarding == old(forwarding)[addr := id]
      ensures id != 0 ==> id in lists && at[id] == addr
      ensures id == 0 ==> forall i :: i in lists ==> at[i] != addr
    {
      if addr !in forwarding {
        ForwardsZero(forwarding, at, addr);
        forwarding := forwarding[addr := 0];
      }
      id := forwarding[addr];
    }

    /** getStreamListBySocket: the one list with this source address, or none. */
    method GetStreamListBySocket(addr: Addr) returns (list: StreamList?)
      requires Routed()
      modifies this`management, this`forwarding
      ensures Routed()
      ensures list != null ==> exists id :: id in lists && lists[id] == list && at[id] == addr
      ensures list == null ==> forall id :: id in lists ==> at[id] != addr
    {
      var id := GetListIdBySocket(addr);
      list := GetStreamList(id);
    }

    /** addSource */
    method AddSource(srcId: int, ip: int, port: int, fd: int) returns (ok: bool)
      requires Valid() && srcId != 0 && srcId !in lists && 0 <= port < 65536 && fd !in fdPort
      modifies this
      ensures Valid()
      ensures ok <==>
        (forall id :: id in old(at) ==> old(at)[id] != Addr(ip, port)) && (port in old(portFd) || fd != -1)
      ensures !ok ==> at == old(at) && dests == old(dests)
      ensures ok ==> at == old(at)[srcId := Addr(ip, port)] && dests == old(dests)[srcId := []]
      ensures fdPort.Keys <= (old(fdPort.Keys) + if fd == -1 then {} else {fd}) && OldOrNew(old(lists), lists)
    {
      hide Routed, Held, Inverse, On, Counts;
      var stream := NewStream(srcId, ip, port);
      ListKeys(this);
      var id := GetListIdBySocket(stream.addr);
      if id != 0 {
        return false;
      }
      var list := new StreamList(srcId, stream);
      ok := AddListener(srcId, stream.addr, fd);
      if ok {
        AddNewList(srcId, list);
      }
    }

    /** The listener of a new source */
    method AddListener(ghost srcId: int, addr: Addr, fd: int) returns (ok: bool)
      requires Inverse() && Counted() && fd !in fdPort && srcId !in at
      modifies this`portListener, this`portFd, this`fdPort
      ensures Inverse() && Counts(if ok then at[srcId := addr] else at, portListener, portFd.Keys)
      ensures ok <==> addr.port in old(portFd) || fd != -1
      ensures fdPort.Keys <= old(fdPort.Keys) + if fd == -1 then {} else {fd}
    {
      hide Inverse, On, Get, Counts;
      CountAt(at, portListener, portFd.Keys, addr.port);
      ghost var l, open := portListener, portFd.Keys;
      var ret := AddSocket(addr.port, fd);
      if ret != -1 {
        CountsMore(at, l, open, portListener, portFd.Keys, srcId, addr);
      } else {
        CountsKept(at, l, open, portListener, portFd.Keys);
      }
      ok := ret != -1;
    }

    /** The list of a new source */
    method AddNewList(srcId: int, list: StreamList)
      requires Routed() && Held() && UniqueLists(dests) && list.listId == srcId && list.destinations == []
      requires srcId != 0 && srcId !in lists && Get(forwarding, list.source.addr) == 0
      modifies this`management, this`forwarding, this`lists, this`at, this`dests
      ensures Routed() && Held() && UniqueLists(dests) && lists == old(lists)[srcId := list]
      ensures at == old(at)[srcId := list.source.addr] && dests == old(dests)[srcId := []]
    {
      hide Routed, Held, Get;
      AddStreamList(srcId, list);
    }

    /** removeSource, up to the end of an idle worker */
    method RemoveSource(srcId: int)
      requires Valid() && srcId in lists
      modifies this
      ensures Valid() && at == old(at) - {srcId} && dests == old(dests) - {srcId}
      ensures fdPort.Keys <= old(fdPort.Keys) && OldOrNew(old(lists), lists)
    {
      hide Routed, Held, Inverse, On, Get, Counts;
      ListFacts(this, srcId);
      SomeOn(at, srcId);
      CountAt(at, portListener, portFd.Keys, at[srcId].port);
      ghost var l, open := portListener, portFd.Keys;
      var list := GetStreamList(srcId);
      var closed := RemoveSocket(list.source.addr.port);
      CountsLess(at, l, open, portListener, portFd.Keys, srcId);
      RemoveStreamList(srcId);
    }

    /** addDestination */
    method AddDestination(srcId: int, destId: int, ip: int, port: int)
      requires Valid() && srcId in lists
      modifies this, {lists[srcId]}`destinations
      ensures Valid() && at == old(at) && fdPort == old(fdPort) && lists == old(lists)
      ensures dests == old(dests)[srcId := Added(old(dests)[srcId], NewStream(destId, ip, port))]
    {
      hide Routed, Held, Inverse, Counted, UniqueIds;
      var stream := NewStream(destId, ip, port);
      ListFacts(this, srcId);
      AddedUnique(dests[srcId], stream);
      var list := GetStreamList(srcId);
      var ok := AddTo(srcId, list, stream);
      ListFacts(this, srcId);
      if ok {
        AddStreamList(srcId, list);
      }
    }

    /** removeDestination */
    method RemoveDestination(srcId: int, destId: int)
      requires Valid() && srcId in lists
      modifies this, {lists[srcId]}`destinations
      ensures Valid() && at == old(at) && fdPort == old(fdPort) && lists == old(lists)
      ensures dests == old(dests)[srcId := Removed(old(dests)[srcId], destId)]
    {
      hide Routed, Held, Inverse, Counted, UniqueIds;
      ListFacts(this, srcId);
      RemovedUnique(dests[srcId], destId);
      PlaceHas(dests[srcId], destId);
      var list := GetStreamList(srcId);
      var found := list.ExistDestination(destId);
      if found {
        RemoveFrom(srcId, list, destId);
        ListFacts(this, srcId);
        AddStreamList(srcId, list);
      }
    }
  }

  /** A packet that is sent */
  datatype Datagram = Datagram(to: Addr, packet: seq<byte>)

  /** process of a ForwardWorker: a packet that came in on this descriptor goes on to all destinations
      of the list whose source has the sender's ip and the port of the descriptor. */
  method Process(w: Worker, fd: int, ip: int, packet: seq<byte>) returns (sent: seq<Datagram>)
    requires w.Valid() && fd in w.fdPort
    modifies w`management, w`forwarding
    ensures w.Valid()
    ensures forall id :: id in w.at && w.at[id] == Addr(ip, w.fdPort[fd]) && packet != [] ==>
      && |sent| == |w.dests[id]|
      && forall k :: 0 <= k < |sent| ==>
        sent[k] == Datagram(w.dests[id][k].addr, packet[..if |packet| < BUFFER then |packet| else BUFFER])
    ensures (forall id :: id in w.at ==> w.at[id] != Addr(ip, w.fdPort[fd])) || packet == [] ==> sent == []
  {
    hide Worker.Inverse, Counts, UniqueIds;
    var rlen := if |packet| < BUFFER then |packet| else BUFFER;
    sent := [];
    if rlen > 0 {
      var port := w.fdPort[fd];
      var list := w.GetStreamListBySocket(Addr(ip, port));
      if list == null {
        return;
      }
      var c := list.destinations;
      for it := 0 to |c|
        invariant |sent| == it && forall k :: 0 <= k < it ==> sent[k] == Datagram(c[k].addr, packet[..rlen])
      {
        sent := sent + [Datagram(c[it].addr, packet[..rlen])];
      }
    }
  }

  lemma ListKeys(w: Worker)
    requires w.Routed() && w.Held()
    ensures w.lists.Keys == w.at.Keys == w.dests.Keys
  {
  }

  lemma ListFacts(w: Worker, id: int)
    requires w.Routed() && w.Held() && id in w.lists
    ensures id != 0 && w.lists[id].listId == id && w.lists.Keys == w.at.Keys == w.dests.Keys
    ensures w.lists[id].source.addr == w.at[id] && w.lists[id].destinations == w.dests[id]
    ensures w.lists[id := w.lists[id]] == w.lists && w.at[id := w.at[id]] == w.at
    ensures w.dests[id := w.dests[id]] == w.dests
  {
  }

  // ---------- runs ----------

  /** What the tables stand for: the sources and the destinations of the lists. */
  datatype Table = Table(at: map<int, Addr>, dests: map<int, seq<Stream>>)

  datatype Request =
    | Joining(id: int, ip: int, port: int)
    | Leaving(id: int)
    | Adding(id: int, destId: int, ip: int, port: int)
    | Removing(id: int, destId: int)

  /** A new source has a new id; all other requests are for a source that is there. */
  predicate Proper(t: Table, r: Request) {
    match r
    case Joining(id, _, port) => id != 0 && id !in t.at && 0 <= port < 65536
    case _ => r.id in t.at && r.id in t.dests
  }

  ghost predicate InUse(at: map<int, Addr>, a: Addr) {
    exists id :: id in at && at[id] == a
  }

  /** The effect of a request; `fd` is what init_socket returns if it has to open a port. */
  ghost function Served(t: Table, r: Request, fd: int): Table {
    if !Proper(t, r) then t
    else match r
      case Joining(id, ip, port) =>
        if InUse(t.at, Addr(ip, port)) || (On(t.at, port) == 0 && fd == -1) then t
        else Table(t.at[id := Addr(ip, port)], t.dests[id := []])
      case Leaving(id) => Table(t.at - {id}, t.dests - {id})
      case Adding(id, destId, ip, port) =>
        t.(dests := t.dests[id := Added(t.dests[id], NewStream(destId, ip, port))])
      case Removing(id, destId) => t.(dests := t.dests[id := Removed(t.dests[id], destId)])
  }

  /** A request, and the descriptor it may open a port with, or -1 */
  datatype Turn = Turn(request: Request, fd: int)

  ghost function AllServed(turns: seq<Turn>): Table {
    if turns == [] then Table(map[], map[])
    else
      var last := turns[|turns| - 1];
      Served(AllServed(turns[..|turns| - 1]), last.request, last.fd)
  }

  /** Every request is proper when its turn comes. */
  ghost predicate InOrder(turns: seq<Turn>) {
    forall n :: 0 <= n < |turns| ==> Proper(AllServed(turns[..n]), turns[n].request)
  }

  // ---------- what a run comes to ----------

  /** What a request means for the destinations of one list */
  function EventFor(r: Request, id: int): Event {
    if r.id != id then Nothing
    else match r
      case Joining(_, _, _) => Nothing
      case Leaving(_) => Clear
      case Adding(_, destId, ip, port) => Add(NewStream(destId, ip, port))
      case Removing(_, destId) => Remove(destId)
  }

  function EventsFor(turns: seq<Turn>, id: int): (es: seq<Event>)
    ensures |es| == |turns| && forall i :: 0 <= i < |turns| ==> es[i] == EventFor(turns[i].request, id)
  {
    seq(|turns|, i requires 0 <= i < |turns| => EventFor(turns[i].request, id))
  }

  ghost function DestsOf(t: Table, id: int): seq<Stream> {
    if id in t.dests then t.dests[id] else []
  }

  lemma EventNext(t: Table, r: Request, fd: int, id: int, d: seq<Stream>)
    requires Proper(t, r) && t.at.Keys == t.dests.Keys && d == DestsOf(t, id)
    ensures Served(t, r, fd).at.Keys == Served(t, r, fd).dests.Keys
    ensures DestsOf(Served(t, r, fd), id) ==
      match EventFor(r, id)
      case Add(s) => Added(d, s)
      case Remove(destId) => Removed(d, destId)
      case Clear => []
      case Nothing => d
  {
    hide Added, Removed, InUse, On;
  }

  lemma {:induction false} ListIs(turns: seq<Turn>, id: int)
    requires InOrder(turns)
    ensures AllServed(turns).at.Keys == AllServed(turns).dests.Keys
    ensures DestsOf(AllServed(turns), id) == Listed(EventsFor(turns, id))
    decreases |turns|
  {
    hide Served, Proper, Listed, EventsFor, Added, Removed;
    if turns == [] {
      NoEvents(id);
    } else {
      var n := |turns| - 1;
      var front := turns[..n];
      assert forall k :: 0 <= k < n ==> front[..k] == turns[..k];
      ListIs(front, id);
      ListedNext(turns, id);
      EventNext(AllServed(front), turns[n].request, turns[n].fd, id, Listed(EventsFor(front, id)));
    }
  }

  lemma NoEvents(id: int)
    ensures Listed(EventsFor([], id)) == []
  {
  }

  lemma ListedNext(turns: seq<Turn>, id: int)
    requires turns != []
    ensures var d := Listed(EventsFor(turns[..|turns| - 1], id));
      Listed(EventsFor(turns, id)) ==
      match EventFor(turns[|turns| - 1].request, id)
      case Add(s) => Added(d, s)
      case Remove(destId) => Removed(d, destId)
      case Clear => []
      case Nothing => d
  {
    hide Added, Removed;
    assert EventsFor(turns, id)[..|turns| - 1] == EventsFor(turns[..|turns| - 1], id);
  }

  /** A request that takes this destination from the list, or the list as a whole */
  predicate TakesAway(r: Request, id: int, destId: int) {
    r == Removing(id, destId) || r == Leaving(id)
  }

  /** Request i brought the destination x to the list, where no other one had its id then, and no later
      request took it away. */
  ghost predicate Brought(turns: seq<Turn>, i: nat, id: int, x: Stream) {
    && i < |turns|
    && (exists port :: port % 65536 == x.addr.port && turns[i].request == Adding(id, x.id, x.addr.ip, port))
    && (forall j :: i < j < |turns| ==> !TakesAway(turns[j].request, id, x.id))
    && (forall j :: 0 <= j < i && IsAdding(turns[j].request, id, x.id) ==>
          exists k :: j < k < i && TakesAway(turns[k].request, id, x.id))
  }

  predicate IsAdding(r: Request, id: int, destId: int) {
    r.Adding? && r.id == id && r.destId == destId
  }

  /** After a run a list has exactly the destinations that were brought to it, at the addresses that
      were asked for, and that were not taken away since. */
  lemma DestinationsAre(turns: seq<Turn>, id: int, x: Stream)
    requires InOrder(turns) && id in AllServed(turns).dests
    ensures x in AllServed(turns).dests[id] <==> exists i :: 0 <= i < |turns| && Brought(turns, i, id, x)
  {
    hide InOrder, AllServed;
    ListIs(turns, id);
    var es := EventsFor(turns, id);
    ListedExactly(es);
    forall i | 0 <= i < |turns|
      ensures Came(es, i, x) <==> Brought(turns, i, id, x)
    {
      BroughtCame(turns, i, id, x);
    }
  }

  lemma BroughtCame(turns: seq<Turn>, i: nat, id: int, x: Stream)
    requires i < |turns|
    ensures Came(EventsFor(turns, id), i, x) <==> Brought(turns, i, id, x)
  {
    hide EventsFor;
    var es := EventsFor(turns, id);
    forall j | 0 <= j < |turns|
      ensures Ends(es[j], x.id) <==> TakesAway(turns[j].request, id, x.id)
      ensures Adds(es[j], x.id) <==> IsAdding(turns[j].request, id, x.id)
    {
    }
    AddingEvent(turns[i].request, id, x);
  }

  lemma AddingEvent(r: Request, id: int, x: Stream)
    ensures EventFor(r, id) == Add(x) <==>
      exists port :: port % 65536 == x.addr.port && r == Adding(id, x.id, x.addr.ip, port)
  {
    if r.Adding? && EventFor(r, id) == Add(x) {
      assert r.port % 65536 == x.addr.port && r == Adding(id, x.id, x.addr.ip, r.port);
    }
  }

  /** Request i made id a source with this address: it was free, the port was open for another source
      or could be opened, and the source has not left since. */
  ghost predicate Joined(turns: seq<Turn>, i: nat, id: int, a: Addr) {
    && i < |turns| && turns[i].request == Joining(id, a.ip, a.port)
    && (forall other :: other in AllServed(turns[..i]).at ==> AllServed(turns[..i]).at[other] != a)
    && (turns[i].fd != -1 ||
        exists other :: other in AllServed(turns[..i]).at && AllServed(turns[..i]).at[other].port == a.port)
    && (forall j :: i < j < |turns| ==> turns[j].request != Leaving(id))
  }

  lemma JoinedNow(t: Table, id: int, a: Addr, fd: int)
    requires Proper(t, Joining(id, a.ip, a.port))
    ensures id in Served(t, Joining(id, a.ip, a.port), fd).at <==>
      && (forall other :: other in t.at ==> t.at[other] != a)
      && (fd != -1 || exists other :: other in t.at && t.at[other].port == a.port)
    ensures forall other :: other != id ==>
      (other in Served(t, Joining(id, a.ip, a.port), fd).at <==> other in t.at)
    ensures var s := Served(t, Joining(id, a.ip, a.port), fd); id in s.at ==> s.at == t.at[id := a]
  {
    assert InUse(t.at, a) <==> exists other :: other in t.at && t.at[other] == a;
    NoneOn(t.at, a.port);
  }

  lemma JoinedBefore(turns: seq<Turn>, i: nat, id: int, a: Addr)
    requires i < |turns| - 1
    ensures Joined(turns, i, id, a) <==>
      Joined(turns[..|turns| - 1], i, id, a) && turns[|turns| - 1].request != Leaving(id)
  {
    var front := turns[..|turns| - 1];
    assert front[..i] == turns[..i] && forall j :: 0 <= j < |front| ==> front[j] == turns[j];
  }

  lemma Others(t: Table, r: Request, fd: int, id: int)
    requires Proper(t, r) && !r.Joining?
    ensures id in Served(t, r, fd).at <==> id in t.at && r != Leaving(id)
    ensures id in Served(t, r, fd).at ==> Served(t, r, fd).at[id] == t.at[id]
  {
  }

  /** After a run the sources are exactly those that joined and have not left. */
  lemma {:induction false} SourcesAre(turns: seq<Turn>, id: int, a: Addr)
    requires InOrder(turns)
    ensures id in AllServed(turns).at && AllServed(turns).at[id] == a <==>
      exists i :: 0 <= i < |turns| && Joined(turns, i, id, a)
    decreases |turns|
  {
    hide Served, Proper, Joined;
    if turns != [] {
      var n := |turns| - 1;
      var front, r := turns[..n], turns[n].request;
      assert forall k :: 0 <= k < n ==> front[..k] == turns[..k];
      SourcesAre(front, id, a);
      forall i | 0 <= i < n
        ensures Joined(turns, i, id, a) <==> Joined(front, i, id, a) && r != Leaving(id)
      {
        JoinedBefore(turns, i, id, a);
      }
      JoinedLast(turns, id, a);
      NotTwice(AllServed(front), r, turns[n].fd, id, a);
    }
  }

  lemma JoinedLast(turns: seq<Turn>, id: int, a: Addr)
    requires turns != [] && InOrder(turns)
    ensures var n := |turns| - 1;
      var t := AllServed(turns[..n]);
      Joined(turns, n, id, a) <==>
        turns[n].request == Joining(id, a.ip, a.port) && id in Served(t, turns[n].request, turns[n].fd).at
  {
    hide Served, Proper;
    var n := |turns| - 1;
    if turns[n].request == Joining(id, a.ip, a.port) {
      JoinedNow(AllServed(turns[..n]), id, a, turns[n].fd);
    }
  }

  /** How a request changes whether id is a source with this address */
  lemma NotTwice(t: Table, r: Request, fd: int, id: int, a: Addr)
    requires Proper(t, r)
    ensures var s := Served(t, r, fd);
      id in s.at && s.at[id] == a <==>
        (id in t.at && t.at[id] == a && r != Leaving(id)) || (r == Joining(id, a.ip, a.port) && id in s.at)
  {
    if r.Joining? {
      JoinedNow(t, r.id, Addr(r.ip, r.port), fd);
    } else {
      Others(t, r, fd, id);
    }
  }

  /** One request */
  method Serve(w: Worker, r: Request, fd: int)
    requires w.Valid() && Proper(Table(w.at, w.dests), r) && fd !in w.fdPort
    modifies w, set id | id in w.lists :: w.lists[id]
    ensures w.Valid() && Table(w.at, w.dests) == Served(old(Table(w.at, w.dests)), r, fd)
    ensures w.fdPort.Keys <= (old(w.fdPort.Keys) + if fd == -1 then {} else {fd}) && OldOrNew(old(w.lists), w.lists)
  {
    hide Worker.Valid, Added, Removed, On;
    ValidKeys(w);
    match r
    case Joining(id, ip, port) =>
      var ok := w.AddSource(id, ip, port, fd);
    case Leaving(id) =>
      w.RemoveSource(id);
    case Adding(id, destId, ip, port) =>
      w.AddDestination(id, destId, ip, port);
    case Removing(id, destId) =>
      w.RemoveDestination(id, destId);
  }

  lemma ValidKeys(w: Worker)
    requires w.Valid()
    ensures w.lists.Keys == w.at.Keys == w.dests.Keys
    ensures forall p :: p in w.portFd <==> On(w.at, p) > 0
  {
  }

  /** In every run, whether its ports can be opened or not, the tables stay in agreement, ports are open
      exactly while they have sources, and the lists hold what the requests say. */
  method ServeAll(turns: seq<Turn>) returns (w: Worker)
    requires InOrder(turns)
    requires forall i, j :: 0 <= i < j < |turns| ==> turns[i].fd != turns[j].fd || turns[i].fd == -1
    ensures fresh(w) && w.Valid() && Table(w.at, w.dests) == AllServed(turns)
    ensures forall id :: id in AllServed(turns).at ==>
      && id in AllServed(turns).dests && id in w.management && w.management[id] != null
      && w.management[id].source.addr == AllServed(turns).at[id]
      && w.management[id].destinations == AllServed(turns).dests[id]
      && w.management[id].source.addr in w.forwarding && w.forwarding[w.management[id].source.addr] == id
  {
    hide Worker.Valid, Served, Proper;
    w := new Worker();
    for n := 0 to |turns|
      invariant fresh(w) && (forall id :: id in w.lists ==> fresh(w.lists[id]))
      invariant w.Valid() && Table(w.at, w.dests) == AllServed(turns[..n])
      invariant forall fd :: fd in w.fdPort ==> fd != -1 && exists i :: 0 <= i < n && turns[i].fd == fd
    {
      PrefixNext(turns, n);
      Serve(w, turns[n].request, turns[n].fd);
    }
    assert turns[..|turns|] == turns;
    forall id | id in w.at
      ensures id in w.dests && id in w.management && w.management[id] != null
      ensures w.management[id].source.addr == w.at[id] && w.management[id].destinations == w.dests[id]
      ensures w.at[id] in w.forwarding && w.forwarding[w.at[id]] == id
    {
      ManagedAt(w, id);
    }
  }

  lemma ManagedAt(w: Worker, id: int)
    requires w.Valid() && id in w.at
    ensures id in w.dests && id in w.management && w.management[id] != null
    ensures w.management[id].source.addr == w.at[id] && w.management[id].destinations == w.dests[id]
    ensures w.at[id] in w.forwarding && w.forwarding[w.at[id]] == id
  {
  }

  ghost predicate IsSource(turns: seq<Turn>, id: int, a: Addr) {
    exists i :: 0 <= i < |turns| && Joined(turns, i, id, a)
  }

  ghost predicate IsDestination(turns: seq<Turn>, id: int, x: Stream) {
    exists i :: 0 <= i < |turns| && Brought(turns, i, id, x)
  }

  lemma PortOfFd(w: Worker, port: int)
    requires w.Valid() && port in w.portFd
    ensures w.portFd[port] in w.fdPort && w.fdPort[w.portFd[port]] == port
  {
  }

  lemma OpenPorts(w: Worker, turns: seq<Turn>, port: int)
    requires w.Valid() && InOrder(turns) && w.at == AllServed(turns).at
    ensures port in w.portFd <==> exists id, ip :: IsSource(turns, id, Addr(ip, port))
  {
    hide AllServed, InOrder, Joined;
    CountAt(w.at, w.portListener, w.portFd.Keys, port);
    NoneOn(w.at, port);
    if id :| id in w.at && w.at[id].port == port {
      SourcesAre(turns, id, w.at[id]);
      assert IsSource(turns, id, Addr(w.at[id].ip, port));
    }
    if id, ip :| IsSource(turns, id, Addr(ip, port)) {
      SourcesAre(turns, id, Addr(ip, port));
    }
  }

  /** The datagrams for a list and those who are its destinations */
  lemma SentTo(w: Worker, turns: seq<Turn>, from: Addr, packet: seq<byte>, sent: seq<Datagram>, a: Addr)
    requires InOrder(turns) && w.at == AllServed(turns).at && w.dests == AllServed(turns).dests
    requires w.at.Keys == w.dests.Keys
    requires forall id :: id in w.at && w.at[id] == from ==>
      |sent| == |w.dests[id]| && forall k :: 0 <= k < |sent| ==> sent[k] == Datagram(w.dests[id][k].addr, packet)
    requires (forall id :: id in w.at ==> w.at[id] != from) ==> sent == []
    ensures Datagram(a, packet) in sent <==>
      exists id, destId :: IsSource(turns, id, from) && IsDestination(turns, id, Stream(destId, a))
    ensures forall d :: d in sent ==> d.packet == packet
  {
    hide AllServed, InOrder, Joined, Brought;
    if id, destId :| IsSource(turns, id, from) && IsDestination(turns, id, Stream(destId, a)) {
      SourcesAre(turns, id, from);
      DestinationsAre(turns, id, Stream(destId, a));
      var k :| 0 <= k < |w.dests[id]| && w.dests[id][k] == Stream(destId, a);
      assert sent[k] == Datagram(a, packet);
    }
    if k :| 0 <= k < |sent| && sent[k] == Datagram(a, packet) {
      var id :| id in w.at && w.at[id] == from;
      SourcesAre(turns, id, from);
      var x := w.dests[id][k];
      DestinationsAre(turns, id, x);
      assert x == Stream(x.id, a);
      assert IsSource(turns, id, from) && IsDestination(turns, id, Stream(x.id, a));
    }
  }

  /** After any run a port is open exactly if a source joined with it and has not left, and a packet
      goes on to exactly the destinations of the source it came from. */
  method ForwardAfter(turns: seq<Turn>, ip: int, port: int, packet: seq<byte>)
    returns (w: Worker, sent: seq<Datagram>)
    requires InOrder(turns) && 0 < |packet| <= BUFFER
    requires forall i, j :: 0 <= i < j < |turns| ==> turns[i].fd != turns[j].fd || turns[i].fd == -1
    ensures port in w.portFd <==> exists id, ip' :: IsSource(turns, id, Addr(ip', port))
    ensures port in w.portFd ==> forall a ::
      Datagram(a, packet) in sent <==>
        exists id, destId :: IsSource(turns, id, Addr(ip, port)) && IsDestination(turns, id, Stream(destId, a))
    ensures forall d :: d in sent ==> d.packet == packet
  {
    hide Worker.Valid, IsSource, IsDestination, InOrder, AllServed;
    w := ServeAll(turns);
    sent := [];
    OpenPorts(w, turns, port);
    if port in w.portFd {
      PortOfFd(w, port);
      ValidKeys(w);
      sent := Process(w, w.portFd[port], ip, packet);
      forall a
        ensures Datagram(a, packet) in sent <==>
          exists id, destId :: IsSource(turns, id, Addr(ip, port)) && IsDestination(turns, id, Stream(destId, a))
        ensures forall d :: d in sent ==> d.packet == packet
      {
        SentTo(w, turns, Addr(ip, port), packet, sent, a);
      }
      SentTo(w, turns, Addr(ip, port), packet, sent, Addr(ip, port));
    }
  }
}
