/** The worker for RTP streams: each source has an even port, and a second list for its control
    protocol on the odd port above (section 11 of RFC 3550). */
module Rtcp {
  import opened StreamLists
  import opened Registry

  /** The stream of the control protocol that belongs to an RTP stream */
  function RaisedStream(s: Stream): Stream {
    NewStream(s.id + 1, s.addr.ip, s.addr.port + 1)
  }

  function Raised(d: seq<Stream>): (r: seq<Stream>)
    ensures |r| == |d|
  {
    if d == [] then [] else [RaisedStream(d[0])] + Raised(d[1..])
  }

  lemma {:induction false} RaisedConcat(a: seq<Stream>, b: seq<Stream>)
    ensures Raised(a + b) == Raised(a) + Raised(b)
  {
    if a == [] {
      assert a + b == b;
    } else {
      assert (a + b)[1..] == a[1..] + b;
      RaisedConcat(a[1..], b);
    }
  }

  lemma {:induction false} RaisedPlace(d: seq<Stream>, id: int)
    ensures Place(Raised(d), id + 1) == Place(d, id)
  {
    if d != [] {
      RaisedPlace(d[1..], id);
    }
  }

  /** The same addition to both lists of a pair keeps them paired. */
  lemma RaisedAdded(d: seq<Stream>, id: int, ip: int, port: int)
    ensures Raised(Added(d, NewStream(id, ip, port))) == Added(Raised(d), NewStream(id + 1, ip, port + 1))
  {
    RaisedPlace(d, id);
    RaisedConcat(d, [NewStream(id, ip, port)]);
    assert NewStream(id + 1, ip, port % 65536 + 1) == NewStream(id + 1, ip, port + 1);
    assert Raised([NewStream(id, ip, port)]) == [NewStream(id + 1, ip, port + 1)];
  }

  lemma RaisedRemoved(d: seq<Stream>, id: int)
    ensures Raised(Removed(d, id)) == Removed(Raised(d), id + 1)
  {
    RaisedPlace(d, id);
    var i := Place(d, id);
    if i < |d| {
      RaisedConcat(d[..i], d[i + 1..]);
      RaisedConcat(d[..i], d[i..]);
      RaisedConcat(d[..i + 1], d[i + 1..]);
      assert d == d[..i] + d[i..] == d[..i + 1] + d[i + 1..];
      assert Raised(d)[..i] == Raised(d[..i]) && Raised(d)[i + 1..] == Raised(d[i + 1..]);
    }
  }

  // ---------- the tables ----------

  /** The ports of an even number p and the one above it: both are open, or none; the lower one has as
      many listeners as sources, the upper one has one more while it is open.  After it was closed its
      count may stand at -1. */
  ghost predicate PortPair(p: int, at: map<int, Addr>, listener: map<int, int>, open: set<int>) {
    var n := On(at, p);
    && On(at, p + 1) == n && Get(listener, p) == n
    && (if n > 0 then Get(listener, p + 1) == n + 1 else Get(listener, p + 1) == 0 || Get(listener, p + 1) == -1)
    && (p in open <==> n > 0) && (p + 1 in open <==> n > 0)
  }

  ghost predicate PortPairs(at: map<int, Addr>, listener: map<int, int>, open: set<int>) {
    forall p :: p % 2 == 0 ==> PortPair(p, at, listener, open)
  }

  /** Sources come in pairs, s and s + 1, with the same address but for the port. */
  ghost predicate SourcePairs(pairs: set<int>, at: map<int, Addr>) {
    && (forall s :: s in pairs ==> s in at && s + 1 in at && s + 1 !in pairs)
    && (forall id :: id in at ==> id in pairs || id - 1 in pairs)
    && (forall s :: s in pairs ==> at[s].port % 2 == 0 && 0 <= at[s].port < 65536)
    && (forall s :: s in pairs ==> at[s + 1] == Addr(at[s].ip, at[s].port + 1))
  }

  /** The second list of a pair has the destinations of the first, with ids and ports raised by one. */
  ghost predicate DestPairs(pairs: set<int>, dests: map<int, seq<Stream>>) {
    forall s :: s in pairs ==> s in dests && s + 1 in dests && dests[s + 1] == Raised(dests[s])
  }

  lemma DestPairsSet(pairs: set<int>, at: map<int, Addr>, dests: map<int, seq<Stream>>, s: int, d: seq<Stream>)
    requires SourcePairs(pairs, at) && DestPairs(pairs, dests) && UniqueLists(dests) && s in pairs
    requires UniqueIds(d) && UniqueIds(Raised(d))
    ensures DestPairs(pairs, dests[s := d][s + 1 := Raised(d)]) && UniqueLists(dests[s := d][s + 1 := Raised(d)])
  {
  }

  lemma DestPairsMore(pairs: set<int>, dests: map<int, seq<Stream>>, s: int)
    requires DestPairs(pairs, dests) && UniqueLists(dests) && s !in dests && s + 1 !in dests
    ensures DestPairs(pairs + {s}, dests[s := []][s + 1 := []]) && UniqueLists(dests[s := []][s + 1 := []])
  {
  }

  lemma DestPairsLess(pairs: set<int>, at: map<int, Addr>, dests: map<int, seq<Stream>>, s: int)
    requires SourcePairs(pairs, at) && DestPairs(pairs, dests) && UniqueLists(dests) && s in pairs
    ensures DestPairs(pairs - {s}, dests - {s} - {s + 1}) && UniqueLists(dests - {s} - {s + 1})
  {
  }

  lemma {:induction false} RaisedUnique(d: seq<Stream>)
    requires UniqueIds(d)
    ensures UniqueIds(Raised(d))
  {
    RaisedAt(d);
  }

  lemma {:induction false} RaisedAt(d: seq<Stream>)
    ensures forall i :: 0 <= i < |d| ==> Raised(d)[i] == RaisedStream(d[i])
  {
    if d != [] {
      RaisedAt(d[1..]);
    }
  }

  /** The counts and the open ports differ only for p and p + 1. */
  ghost predicate Elsewhere(p: int, l: map<int, int>, l': map<int, int>, open: set<int>, open': set<int>) {
    forall q :: q != p && q != p + 1 ==> Get(l', q) == Get(l, q) && (q in open' <==> q in open)
  }

  /** One more source, and one more listener on each port of the pair. */
  lemma PairAdded(at: map<int, Addr>, l: map<int, int>, open: set<int>, l': map<int, int>, open': set<int>,
                  s: int, a: Addr)
    requires PortPairs(at, l, open) && a.port % 2 == 0 && s !in at && s + 1 !in at
    requires Elsewhere(a.port, l, l', open, open') && a.port in open' && a.port + 1 in open'
    requires var n := On(at, a.port); Get(l', a.port) == n + 1 && Get(l', a.port + 1) == n + 2
    ensures PortPairs(at[s := a][s + 1 := Addr(a.ip, a.port + 1)], l', open')
  {
    var more, all := at[s := a], at[s := a][s + 1 := Addr(a.ip, a.port + 1)];
    forall p | p % 2 == 0
      ensures PortPair(p, all, l', open')
    {
      assert PortPair(p, at, l, open);
      OneMore(at, s, a, p);
      OneMore(at, s, a, p + 1);
      OneMore(more, s + 1, Addr(a.ip, a.port + 1), p);
      OneMore(more, s + 1, Addr(a.ip, a.port + 1), p + 1);
    }
  }

  /** One source less, and one listener less, or both ports closed. */
  lemma PairRemoved(at: map<int, Addr>, l: map<int, int>, open: set<int>, l': map<int, int>, open': set<int>, s: int)
    requires PortPairs(at, l, open) && s in at && s + 1 in at && at[s].port % 2 == 0 && at[s + 1].port == at[s].port + 1
    requires var p, n := at[s].port, On(at, at[s].port);
      && Elsewhere(p, l, l', open, open')
      && Get(l', p) == n - 1 && Get(l', p + 1) == (if n == 1 then -1 else n)
      && (p in open' <==> n > 1) && (p + 1 in open' <==> n > 1)
    ensures PortPairs(at - {s} - {s + 1}, l', open')
  {
    var less := at - {s};
    forall p | p % 2 == 0
      ensures PortPair(p, less - {s + 1}, l', open')
    {
      assert PortPair(p, at, l, open);
      OneLess(at, s, p);
      OneLess(at, s, p + 1);
      OneLess(less, s + 1, p);
      OneLess(less, s + 1, p + 1);
    }
  }

  /** Nothing opened: at most the -1 above a closed port has become a zero. */
  lemma PairKept(at: map<int, Addr>, l: map<int, int>, open: set<int>, l': map<int, int>, p: int)
    requires PortPairs(at, l, open) && p % 2 == 0 && On(at, p) == 0
    requires Elsewhere(p, l, l', open, open) && Get(l', p) == 0 == Get(l', p + 1)
    ensures PortPairs(at, l', open)
  {
    forall q | q % 2 == 0
      ensures PortPair(q, at, l', open)
    {
      assert PortPair(q, at, l, open);
    }
  }

  lemma PairAt(at: map<int, Addr>, l: map<int, int>, open: set<int>, p: int)
    requires PortPairs(at, l, open) && p % 2 == 0
    ensures PortPair(p, at, l, open)
  {
  }

  lemma PairsMore(pairs: set<int>, at: map<int, Addr>, s: int, a: Addr)
    requires SourcePairs(pairs, at) && s !in at && s + 1 !in at && a.port % 2 == 0 && 0 <= a.port < 65536
    ensures SourcePairs(pairs + {s}, at[s := a][s + 1 := Addr(a.ip, a.port + 1)])
  {
  }

  lemma PairsLess(pairs: set<int>, at: map<int, Addr>, s: int)
    requires SourcePairs(pairs, at) && s in pairs
    ensures SourcePairs(pairs - {s}, at - {s} - {s + 1})
  {
  }

  /** What the tables stand for: the ids of the RTP sources, and the sources and destinations of all lists. */
  datatype State = Registered(pairs: set<int>, at: map<int, Addr>, dests: map<int, seq<Stream>>)

  class RtcpWorker {
    const base: Worker
    ghost var pairs: set<int>     // the ids of the RTP sources

    ghost predicate Valid()
      reads this, base, base.lists.Values
    {
      && base.Routed() && base.Held() && UniqueLists(base.dests) && base.Inverse()
      && SourcePairs(pairs, base.at) && DestPairs(pairs, base.dests)
      && PortPairs(base.at, base.portListener, base.portFd.Keys)
    }

    /** What the tables stand for */
    ghost function State(): State
      reads this`pairs, base`at, base`dests
    {
      Registered(pairs, base.at, base.dests)
    }

    constructor ()
      ensures Valid() && pairs == {} && fresh(base) && base.at == map[]
      ensures base.lists == map[] && base.dests == map[]
      ensures base.fdPort == map[] && base.portFd == map[] && base.portListener == map[]
    {
      base := new Worker();
      pairs := {};
    }

    /** add_socket: opens the port and the one above it; `fd` and `fd2` are what init_socket returns. */
    method AddSocket(port: int, fd: int, fd2: int) returns (ret: int)
      modifies base`portListener, base`portFd, base`fdPort
      ensures var n := old(Get(base.portListener, port));
        && ret == (if n != 0 then 0 else if fd == -1 || fd2 == -1 then -1 else 1)
        && base.portListener == (if n != 0 then old(base.portListener)[port := n + 1]
                                 else if ret == -1 then old(base.portListener)[port := 0]
                                 else old(base.portListener)[port := 1][port + 1 := 1])
      ensures base.portFd == if ret == 1 then old(base.portFd)[port := fd][port + 1 := fd2] else old(base.portFd)
      ensures base.fdPort == if ret == 1 then old(base.fdPort)[fd := port][fd2 := port + 1] else old(base.fdPort)
    {
      var listeners := Get(base.portListener, port);
      base.portListener := base.portListener[port := listeners];
      if listeners != 0 {
        base.portListener := base.portListener[port := listeners + 1];
        return 0;
      }
      if fd == -1 {
        return -1;
      }
      if fd2 == -1 {
        return -1;
      }
      base.portFd := base.portFd[port := fd];
      base.fdPort := base.fdPort[fd := port];
      base.portListener := base.portListener[port := 1];
      base.portFd := base.portFd[port + 1 := fd2];
      base.fdPort := base.fdPort[fd2 := port + 1];
      base.portListener := base.portListener[port + 1 := 1];
      ret := 1;
    }

    /** remove_socket: the last listener closes the port and the one above it. */
    method RemoveSocket(port: int) returns (closed: bool)
      requires base.Inverse()
      requires Get(base.portListener, port) == 1 ==> port in base.portFd && port + 1 in base.portFd
      modifies base`portListener, base`portFd, base`fdPort
      ensures base.Inverse() && (closed <==> old(Get(base.portListener, port)) == 1)
      ensures base.portListener == if closed then old(base.portListener) - {port, port + 1}
                                   else old(base.portListener)[port := old(Get(base.portListener, port)) - 1]
      ensures base.portFd == if closed then old(base.portFd) - {port, port + 1} else old(base.portFd)
      ensures base.fdPort.Keys <= old(base.fdPort.Keys)
    {
      base.portListener := base.portListener[port := Get(base.portListener, port) - 1];
      if base.portListener[port] == 0 {
        var fd := base.portFd[port];
        var fd2 := base.portFd[port + 1];
        base.portFd := base.portFd - {port};
        base.fdPort := base.fdPort - {fd};
        base.portListener := base.portListener - {port};
        base.portFd := base.portFd - {port + 1};
        base.fdPort := base.fdPort - {fd2};
        base.portListener := base.portListener - {port + 1};
        return true;
      }
      closed := false;
    }

    /** The two calls of add_socket in addSource: the second one counts a listener on the upper port,
        or, after the first one has failed, may open this port and the one above it. */
    method AddSockets(port: int, fd: int, fd2: int, fd3: int, fd4: int) returns (ok: bool)
      requires base.Inverse() && PortPairs(base.at, base.portListener, base.portFd.Keys) && port % 2 == 0
      requires fd !in base.fdPort && fd2 !in base.fdPort && (fd != fd2 || fd == -1)
      modifies base`portListener, base`portFd, base`fdPort
      ensures var n := On(base.at, port);
        && (ok <==> n > 0 || (fd != -1 && fd2 != -1))
        && (ok ==>
              && base.Inverse()
              && Get(base.portListener, port) == n + 1 && Get(base.portListener, port + 1) == n + 2
              && port in base.portFd && port + 1 in base.portFd
              && Elsewhere(port, old(base.portListener), base.portListener, old(base.portFd.Keys), base.portFd.Keys))
      ensures var stray := !ok && old(Get(base.portListener, port + 1)) == 0 && fd3 != -1 && fd4 != -1;
        && (stray ==> port + 1 in base.portFd)
        && (!ok && !stray ==> base.Inverse() && PortPairs(base.at, base.portListener, base.portFd.Keys))
      ensures base.fdPort.Keys <= old(base.fdPort.Keys) + {fd, fd2, fd3, fd4}
    {
      ghost var l, open := base.portListener, base.portFd.Keys;
      PairAt(base.at, l, open, port);
      hide On;
      var ret := AddSocket(port, fd, fd2);
      var ret2 := AddSocket(port + 1, fd3, fd4);
      ok := ret != -1 && ret2 != -1;
      if !ok && base.portFd.Keys == open {
        PairKept(base.at, l, open, base.portListener, port);
      }
    }

    /** Whether adding this source leaves a port open that has no pair: the ports cannot be opened,
        but the next two can. */
    ghost predicate Stray(ip: int, port: int, fd: int, fd2: int, fd3: int, fd4: int)
      reads base
    {
      && (forall id :: id in base.at ==> base.at[id] != Addr(ip, port))
      && On(base.at, port) == 0 && (fd == -1 || fd2 == -1)
      && Get(base.portListener, port + 1) == 0 && fd3 != -1 && fd4 != -1
    }

    /** addSource, for an even port.  The pairs of ports are kept exactly if no port is opened by mistake. */
    method AddSource(srcId: int, ip: int, port: int, fd: int, fd2: int, fd3: int, fd4: int) returns (ok: bool)
      requires Valid() && srcId != 0 && srcId != -1 && srcId !in base.lists && srcId + 1 !in base.lists
      requires port % 2 == 0 && 0 <= port < 65536
      requires fd !in base.fdPort && fd2 !in base.fdPort && (fd != fd2 || fd == -1)
      modifies this, base
      ensures Valid() <==> !old(Stray(ip, port, fd, fd2, fd3, fd4))
      ensures old(Stray(ip, port, fd, fd2, fd3, fd4)) ==> port + 1 in base.portFd
      ensures ok <==>
        && (forall id :: id in old(base.at) ==> old(base.at)[id] != Addr(ip, port))
        && (port in old(base.portFd) || (fd != -1 && fd2 != -1))
      ensures base.fdPort.Keys <= old(base.fdPort.Keys) + {fd, fd2, fd3, fd4}
      ensures OldOrNew(old(base.lists), base.lists)
      ensures !ok ==> pairs == old(pairs) && base.at == old(base.at) && base.dests == old(base.dests)
      ensures ok ==>
        && pairs == old(pairs) + {srcId}
        && base.at == old(base.at)[srcId := Addr(ip, port)][srcId + 1 := Addr(ip, port + 1)]
        && base.dests == old(base.dests)[srcId := []][srcId + 1 := []]
    {
      hide On, SourcePairs, PortPairs, DestPairs, UniqueLists, Worker.Routed, Worker.Held, Worker.Inverse;
      PairAt(base.at, base.portListener, base.portFd.Keys, port);
      ListKeys(base);
      var stream, stream2 := NewStream(srcId, ip, port), NewStream(srcId + 1, ip, port + 1);
      ok := NewAddress(stream, stream2);
      if !ok {
        return;
      }
      ghost var l, open := base.portListener, base.portFd.Keys;
      ok := AddSockets(port, fd, fd2, fd3, fd4);
      if ok {
        PairAdded(base.at, l, open, base.portListener, base.portFd.Keys, srcId, stream.addr);
        AddPair(srcId, stream, stream2);
      } else if port + 1 in base.portFd {
        StrayBreaks(base.at, base.portListener, base.portFd.Keys, port);
      }
    }

    /** Whether there is no list with either address; the one implies the other. */
    method NewAddress(stream: Stream, stream2: Stream) returns (ok: bool)
      requires base.Routed() && SourcePairs(pairs, base.at) && stream.addr.port % 2 == 0
      requires stream2.addr == Addr(stream.addr.ip, stream.addr.port + 1)
      modifies base`forwarding
      ensures base.Routed()
      ensures ok <==> forall id :: id in base.at ==> base.at[id] != stream.addr
      ensures ok ==> Get(base.forwarding, stream.addr) == 0 && Get(base.forwarding, stream2.addr) == 0
    {
      hide SourcePairs, Worker.Routed;
      SameKeys(base);
      var id := base.GetListIdBySocket(stream.addr);
      if id != 0 {
        return false;
      }
      UpperAddress(pairs, base.at, stream.addr);
      id := base.GetListIdBySocket(stream2.addr);
      ok := id == 0;
    }

    /** The two lists of a new source */
    method AddPair(srcId: int, stream: Stream, stream2: Stream)
      requires base.Routed() && base.Held() && UniqueLists(base.dests)
      requires SourcePairs(pairs, base.at) && DestPairs(pairs, base.dests)
      requires srcId != 0 && srcId != -1 && srcId !in base.lists && srcId + 1 !in base.lists
      requires stream.addr.port % 2 == 0 && 0 <= stream.addr.port < 65536
      requires stream2.addr == Addr(stream.addr.ip, stream.addr.port + 1)
      requires Get(base.forwarding, stream.addr) == 0 && Get(base.forwarding, stream2.addr) == 0
      modifies this`pairs, base`management, base`forwarding, base`lists, base`at, base`dests
      ensures base.Routed() && base.Held() && UniqueLists(base.dests)
      ensures SourcePairs(pairs, base.at) && DestPairs(pairs, base.dests)
      ensures pairs == old(pairs) + {srcId}
      ensures base.at == old(base.at)[srcId := stream.addr][srcId + 1 := stream2.addr]
      ensures base.dests == old(base.dests)[srcId := []][srcId + 1 := []]
      ensures forall id :: id in base.lists ==>
        (id in old(base.lists) && base.lists[id] == old(base.lists)[id]) || fresh(base.lists[id])
    {
      hide *;
      ListKeys(base);
      PairsMore(pairs, base.at, srcId, stream.addr);
      DestPairsMore(pairs, base.dests, srcId);
      ZeroNext(base, srcId, stream.addr, stream2.addr);
      var list := new StreamList(srcId, stream);
      var list2 := new StreamList(srcId + 1, stream2);
      base.AddStreamList(srcId, list);
      base.AddStreamList(srcId + 1, list2);
      pairs := pairs + {srcId};
    }

    /** removeSource */
    method RemoveSource(srcId: int)
      requires Valid() && srcId in pairs
      modifies this, base
      ensures Valid() && pairs == old(pairs) - {srcId} && base.fdPort.Keys <= old(base.fdPort.Keys)
      ensures base.lists == old(base.lists) - {srcId} - {srcId + 1}
      ensures base.at == old(base.at) - {srcId} - {srcId + 1} && base.dests == old(base.dests) - {srcId} - {srcId + 1}
      ensures srcId in old(base.at)
      ensures var port := old(base.at)[srcId].port;
        On(old(base.at), port) == 1 ==> Get(base.portListener, port + 1) == -1
    {
      hide On, SourcePairs, PortPairs, DestPairs, UniqueLists, Worker.Routed, Worker.Held, Worker.Inverse;
      PairIn(pairs, base.at, srcId);
      PairsLess(pairs, base.at, srcId);
      DestPairsLess(pairs, base.at, base.dests, srcId);
      ListKeys(base);
      RemoveSockets(srcId);
      RemoveLists(srcId);
      pairs := pairs - {srcId};
    }

    method RemoveLists(srcId: int)
      requires base.Routed() && base.Held() && srcId in base.lists && srcId + 1 in base.lists
      modifies base`management, base`forwarding, base`lists, base`at, base`dests
      ensures base.Routed() && base.Held() && base.lists == old(base.lists) - {srcId} - {srcId + 1}
      ensures base.at == old(base.at) - {srcId} - {srcId + 1} && base.dests == old(base.dests) - {srcId} - {srcId + 1}
    {
      hide Worker.Routed, Worker.Held;
      base.RemoveStreamList(srcId);
      base.RemoveStreamList(srcId + 1);
    }

    /** The two calls of remove_socket in removeSource */
    method RemoveSockets(srcId: int)
      requires base.Routed() && base.Held() && base.Inverse() && srcId in base.at && srcId + 1 in base.at
      requires PortPairs(base.at, base.portListener, base.portFd.Keys)
      requires base.at[srcId].port % 2 == 0 && base.at[srcId + 1].port == base.at[srcId].port + 1
      modifies base`portListener, base`portFd, base`fdPort, base`management
      ensures base.Routed() && base.Inverse()
      ensures PortPairs(base.at - {srcId} - {srcId + 1}, base.portListener, base.portFd.Keys)
      ensures base.fdPort.Keys <= old(base.fdPort.Keys)
      ensures var port := base.at[srcId].port; On(base.at, port) == 1 ==> Get(base.portListener, port + 1) == -1
    {
      hide On, PortPairs, Worker.Routed, Worker.Held, Worker.Inverse;
      ghost var at, l, open := base.at, base.portListener, base.portFd.Keys;
      ghost var port := at[srcId].port;
      ListKeys(base);
      ListFacts(base, srcId);
      ListFacts(base, srcId + 1);
      PairAt(at, l, open, port);
      SomeOn(at, srcId);
      var list := base.GetStreamList(srcId);
      var closed := RemoveSocket(list.source.addr.port);
      list := base.GetStreamList(srcId + 1);
      var closed2 := RemoveSocket(list.source.addr.port);
      assert closed <==> On(at, port) == 1;
      assert !closed2;
      PairRemoved(at, l, open, base.portListener, base.portFd.Keys, srcId);
    }

    /** addDestination */
    method AddDestination(srcId: int, destId: int, ip: int, port: int)
      requires Valid() && srcId in pairs
      modifies base, {base.lists[srcId]}`destinations, {base.lists[srcId + 1]}`destinations
      ensures Valid() && pairs == old(pairs) && base.at == old(base.at)
      ensures base.lists == old(base.lists) && base.fdPort == old(base.fdPort)
      ensures var d := Added(old(base.dests)[srcId], NewStream(destId, ip, port));
        base.dests == old(base.dests)[srcId := d][srcId + 1 := Raised(d)]
    {
      var stream, stream2 := NewStream(destId, ip, port), NewStream(destId + 1, ip, port + 1);
      hide On, SourcePairs, PortPairs, DestPairs, UniqueLists, Worker.Routed, Worker.Held, Worker.Inverse;
      hide UniqueIds, Added, Removed, Raised;
      PairIn(pairs, base.at, srcId);
      PairDests(base, srcId);
      UniqueAt(base.dests, srcId);
      ghost var d := base.dests[srcId];
      AddedUnique(d, stream);
      RaisedUnique(Added(d, stream));
      DestPairsSet(pairs, base.at, base.dests, srcId, Added(d, stream));
      PairRaised(pairs, base.dests, srcId);
      var list := base.GetStreamList(srcId);
      var list2 := base.GetStreamList(srcId + 1);
      var ok := AddBoth(srcId, list, list2, destId, ip, port);
      if ok {
        PutBoth(srcId, list, list2);
      }
    }

    /** streamlist->addDestination(udpstream) && streamlist2->addDestination(udpstream2) */
    method AddBoth(ghost srcId: int, list: StreamList, list2: StreamList, destId: int, ip: int, port: int)
      returns (ok: bool)
      requires base.Routed() && base.Held() && srcId in base.lists && srcId + 1 in base.lists
      requires base.lists[srcId] == list && base.lists[srcId + 1] == list2
      requires srcId in base.dests && srcId + 1 in base.dests && base.dests[srcId + 1] == Raised(base.dests[srcId])
      modifies base`dests, list`destinations, list2`destinations
      ensures base.Held()
      ensures var d := Added(old(base.dests)[srcId], NewStream(destId, ip, port));
        base.dests == old(base.dests)[srcId := d][srcId + 1 := Raised(d)]
    {
      hide Raised, Place, Worker.Routed, Worker.Held;
      ghost var d := base.dests[srcId];
      PairDests(base, srcId);
      RaisedAdded(d, destId, ip, port);
      RaisedPlace(d, destId);
      PlaceHas(d, destId);
      PlaceHas(Raised(d), destId + 1);
      assert Has(d, destId) ==> Added(d, NewStream(destId, ip, port)) == d;
      ok := base.AddTo(srcId, list, NewStream(destId, ip, port));
      if ok {
        ok := base.AddTo(srcId + 1, list2, NewStream(destId + 1, ip, port + 1));
      }
    }

    /** Both lists are put in again. */
    method PutBoth(srcId: int, list: StreamList, list2: StreamList)
      requires base.Routed() && base.Held() && srcId in base.lists && srcId + 1 in base.lists
      requires base.lists[srcId] == list && base.lists[srcId + 1] == list2
      modifies base`management, base`forwarding, base`lists, base`at, base`dests
      ensures base.Routed() && base.Held()
      ensures base.lists == old(base.lists) && base.at == old(base.at) && base.dests == old(base.dests)
    {
      hide Worker.Routed, Worker.Held;
      ListFacts(base, srcId);
      ListFacts(base, srcId + 1);
      base.AddStreamList(srcId, list);
      base.AddStreamList(srcId + 1, list2);
    }

    /** removeDestination */
    method RemoveDestination(srcId: int, destId: int)
      requires Valid() && srcId in pairs
      modifies base, {base.lists[srcId]}`destinations, {base.lists[srcId + 1]}`destinations
      ensures Valid() && pairs == old(pairs) && base.at == old(base.at)
      ensures base.lists == old(base.lists) && base.fdPort == old(base.fdPort)
      ensures var d := Removed(old(base.dests)[srcId], destId);
        base.dests == old(base.dests)[srcId := d][srcId + 1 := Raised(d)]
    {
      hide On, SourcePairs, PortPairs, DestPairs, UniqueLists, Worker.Routed, Worker.Held, Worker.Inverse;
      hide UniqueIds, Added, Removed, Raised;
      PairIn(pairs, base.at, srcId);
      PairDests(base, srcId);
      UniqueAt(base.dests, srcId);
      ghost var d := base.dests[srcId];
      RemovedUnique(d, destId);
      RaisedUnique(Removed(d, destId));
      DestPairsSet(pairs, base.at, base.dests, srcId, Removed(d, destId));
      PairRaised(pairs, base.dests, srcId);
      var list := base.GetStreamList(srcId);
      var list2 := base.GetStreamList(srcId + 1);
      var found := RemoveBoth(srcId, list, list2, destId);
      if found {
        PutBoth(srcId, list, list2);
      }
    }

    method RemoveBoth(ghost srcId: int, list: StreamList, list2: StreamList, destId: int) returns (found: bool)
      requires base.Routed() && base.Held() && srcId in base.lists && srcId + 1 in base.lists
      requires base.lists[srcId] == list && base.lists[srcId + 1] == list2
      requires srcId in base.dests && srcId + 1 in base.dests && base.dests[srcId + 1] == Raised(base.dests[srcId])
      modifies base`dests, list`destinations, list2`destinations
      ensures base.Held()
      ensures var d := Removed(old(base.dests)[srcId], destId);
        base.dests == old(base.dests)[srcId := d][srcId + 1 := Raised(d)]
    {
      hide Raised, Place, Worker.Routed, Worker.Held;
      ghost var d := base.dests[srcId];
      PairDests(base, srcId);
      RaisedRemoved(d, destId);
      RaisedPlace(d, destId);
      PlaceHas(d, destId);
      PlaceHas(Raised(d), destId + 1);
      assert !Has(d, destId) ==> Removed(d, destId) == d;
      found := list.ExistDestination(destId);
      if found {
        found := list2.ExistDestination(destId + 1);
      }
      if found {
        base.RemoveFrom(srcId, list, destId);
        PairDests(base, srcId);
        base.RemoveFrom(srcId + 1, list2, destId + 1);
      }
    }
  }

  lemma SameKeys(w: Worker)
    requires w.Routed()
    ensures w.lists.Keys == w.at.Keys
  {
  }

  lemma UniqueAt(dests: map<int, seq<Stream>>, id: int)
    requires UniqueLists(dests) && id in dests
    ensures UniqueIds(dests[id])
  {
  }

  lemma PairRaised(pairs: set<int>, dests: map<int, seq<Stream>>, s: int)
    requires DestPairs(pairs, dests) && s in pairs
    ensures s in dests && s + 1 in dests && dests[s + 1] == Raised(dests[s])
  {
  }

  lemma PairIn(pairs: set<int>, at: map<int, Addr>, s: int)
    requires SourcePairs(pairs, at) && s in pairs
    ensures s in at && s + 1 in at && at[s].port % 2 == 0 && at[s + 1].port == at[s].port + 1
  {
  }

  /** The two lists of a pair are there, and they are different lists. */
  lemma PairDests(w: Worker, s: int)
    requires w.Routed() && w.Held() && (s in w.at || s in w.lists) && (s + 1 in w.at || s + 1 in w.lists)
    ensures s in w.lists && s + 1 in w.lists && w.lists[s] != w.lists[s + 1]
    ensures w.lists.Keys == w.at.Keys == w.dests.Keys
    ensures w.lists[s].destinations == w.dests[s] && w.lists[s + 1].destinations == w.dests[s + 1]
    ensures w.dests[s := w.dests[s]][s + 1 := w.dests[s + 1]] == w.dests
  {
  }

  /** The address of the second list stays free when the first is put in. */
  lemma ZeroNext(w: Worker, id: int, a: Addr, b: Addr)
    requires a != b && Get(w.forwarding, b) == 0
    ensures Get(w.forwarding[a := id], b) == 0
  {
  }

  lemma UpperAddress(pairs: set<int>, at: map<int, Addr>, a: Addr)
    requires SourcePairs(pairs, at) && a.port % 2 == 0 && forall id :: id in at ==> at[id] != a
    ensures forall id :: id in at ==> at[id] != Addr(a.ip, a.port + 1)
  {
    forall id | id in at
      ensures at[id] != Addr(a.ip, a.port + 1)
    {
      if id !in pairs {
        assert at[id - 1 + 1] == Addr(at[id - 1].ip, at[id - 1].port + 1);
      }
    }
  }

  lemma StrayBreaks(at: map<int, Addr>, l: map<int, int>, open: set<int>, p: int)
    requires p % 2 == 0 && On(at, p) == 0 && p + 1 in open
    ensures !PortPairs(at, l, open)
  {
    assert !PortPair(p, at, l, open);
  }

  // ---------- two states that surprise ----------

  /** A new worker refuses a source because its ports cannot be opened, and opens the upper one of
      them nevertheless, for the second attempt asks for this port and the one above. */
  method StrayPort(id: int, ip: int, port: int, fd3: int, fd4: int) returns (w: RtcpWorker)
    requires id != 0 && id != -1 && port % 2 == 0 && 0 <= port < 65536 && fd3 != -1 && fd4 != -1
    ensures !w.Valid() && w.base.at == map[] && port + 1 in w.base.portFd
  {
    hide RtcpWorker.Valid;
    w := new RtcpWorker();
    NoneOn(map[], port);
    var ok := w.AddSource(id, ip, port, -1, -1, fd3, fd4);
  }

  /** A source comes and goes: the upper port has -1 listeners. */
  method MinusOne(id: int, ip: int, port: int, fd: int, fd2: int) returns (w: RtcpWorker)
    requires id != 0 && id != -1 && port % 2 == 0 && 0 <= port < 65536 && fd != -1 && fd2 != -1 && fd != fd2
    ensures w.Valid() && w.base.at == map[] && Get(w.base.portListener, port + 1) == -1
  {
    hide RtcpWorker.Valid, On;
    w := new RtcpWorker();
    NoneOn(map[], port);
    var ok := w.AddSource(id, ip, port, fd, fd2, -1, -1);
    OneMore(map[], id, Addr(ip, port), port);
    OneMore(map[id := Addr(ip, port)], id + 1, Addr(ip, port + 1), port);
    StateKeys(w);
    w.RemoveSource(id);
  }

  // ---------- runs ----------

  datatype Call =
    | NewSource(id: int, ip: int, port: int)
    | EndSource(id: int)
    | NewDestination(id: int, destId: int, ip: int, port: int)
    | EndDestination(id: int, destId: int)

  /** The ids of a new source and of its second list are new, and its port is even; all other calls are
      for a source that is there. */
  predicate Allowed(s: State, c: Call) {
    match c
    case NewSource(id, _, port) =>
      id != 0 && id != -1 && id !in s.at && id + 1 !in s.at && port % 2 == 0 && 0 <= port < 65536
    case _ => c.id in s.pairs && c.id in s.dests
  }

  ghost predicate Taken(at: map<int, Addr>, a: Addr) {
    exists id :: id in at && at[id] == a
  }

  /** The effect of a call, if the ports can be opened. */
  ghost function Step(s: State, c: Call): State {
    if !Allowed(s, c) then s
    else match c
      case NewSource(id, ip, port) =>
        if Taken(s.at, Addr(ip, port)) then s
        else Registered(s.pairs + {id}, s.at[id := Addr(ip, port)][id + 1 := Addr(ip, port + 1)],
                   s.dests[id := []][id + 1 := []])
      case EndSource(id) => Registered(s.pairs - {id}, s.at - {id} - {id + 1}, s.dests - {id} - {id + 1})
      case NewDestination(id, destId, ip, port) => SetPair(s, id, Added(s.dests[id], NewStream(destId, ip, port)))
      case EndDestination(id, destId) => SetPair(s, id, Removed(s.dests[id], destId))
  }

  function SetPair(s: State, id: int, d: seq<Stream>): State {
    s.(dests := s.dests[id := d][id + 1 := Raised(d)])
  }

  ghost function Run(calls: seq<Call>): State {
    if calls == [] then Registered({}, map[], map[]) else Step(Run(calls[..|calls| - 1]), calls[|calls| - 1])
  }

  /** Every call is allowed when its turn comes. */
  ghost predicate Orderly(calls: seq<Call>) {
    calls != [] ==> Orderly(calls[..|calls| - 1]) && Allowed(Run(calls[..|calls| - 1]), calls[|calls| - 1])
  }

  /** Distinct descriptors, two for each call that may open ports */
  predicate Descriptors(fds: seq<int>, n: nat) {
    && |fds| == 2 * n
    && (forall i :: 0 <= i < |fds| ==> fds[i] != -1)
    && (forall i, j :: 0 <= i < j < |fds| ==> fds[i] != fds[j])
  }

  /** One call, with the descriptors it may open ports with */
  method Act(w: RtcpWorker, c: Call, fd: int, fd2: int)
    requires w.Valid() && Allowed(w.State(), c) && fd != -1 && fd2 != -1 && fd != fd2
    requires fd !in w.base.fdPort && fd2 !in w.base.fdPort
    modifies w, w.base, set id | id in w.base.lists :: w.base.lists[id]
    ensures w.Valid() && w.State() == Step(old(w.State()), c)
    ensures w.base.fdPort.Keys <= old(w.base.fdPort.Keys) + {fd, fd2, -1}
    ensures OldOrNew(old(w.base.lists), w.base.lists)
  {
    hide RtcpWorker.Valid, Added, Removed, Raised;
    StateKeys(w);
    match c
    case NewSource(id, ip, port) =>
      var ok := w.AddSource(id, ip, port, fd, fd2, -1, -1);
    case EndSource(id) =>
      w.RemoveSource(id);
    case NewDestination(id, destId, ip, port) =>
      w.AddDestination(id, destId, ip, port);
    case EndDestination(id, destId) =>
      w.RemoveDestination(id, destId);
  }

  /** In every run whose ports can be opened, the tables keep their pairs, of ports and of lists, and
      hold what the calls say. */
  method Perform(calls: seq<Call>, fds: seq<int>) returns (w: RtcpWorker)
    requires Orderly(calls) && Descriptors(fds, |calls|)
    ensures w.Valid() && w.State() == Run(calls)
    ensures forall p :: p % 2 == 0 ==>
      && (p in w.base.portFd <==> exists id :: id in w.base.at && w.base.at[id].port == p)
      && (p + 1 in w.base.portFd <==> p in w.base.portFd)
    ensures forall id :: id in w.base.at ==>
      && id in w.base.dests && id in w.base.management && w.base.management[id] != null
      && w.base.management[id].source.addr == w.base.at[id]
      && w.base.management[id].destinations == w.base.dests[id]
  {
    hide RtcpWorker.Valid, Step, Allowed;
    w := new RtcpWorker();
    for n := 0 to |calls|
      invariant fresh(w) && fresh(w.base) && (forall id :: id in w.base.lists ==> fresh(w.base.lists[id]))
      invariant w.Valid() && w.State() == Run(calls[..n])
      invariant forall fd :: fd in w.base.fdPort ==> fd in fds[..2 * n] || fd == -1
    {
      AllowedNext(calls, n);
      assert fds[2 * n] !in fds[..2 * n] && fds[2 * n + 1] !in fds[..2 * n];
      Act(w, calls[n], fds[2 * n], fds[2 * n + 1]);
      assert fds[..2 * (n + 1)] == fds[..2 * n] + [fds[2 * n], fds[2 * n + 1]];
    }
    assert calls[..|calls|] == calls;
    forall p | p % 2 == 0
      ensures p in w.base.portFd <==> exists id :: id in w.base.at && w.base.at[id].port == p
      ensures p + 1 in w.base.portFd <==> p in w.base.portFd
    {
      OpenAt(w, p);
    }
    forall id | id in w.base.at
      ensures id in w.base.dests && id in w.base.management && w.base.management[id] != null
      ensures w.base.management[id].source.addr == w.base.at[id]
      ensures w.base.management[id].destinations == w.base.dests[id]
    {
      ManagedAt(w, id);
    }
  }

  lemma OpenAt(w: RtcpWorker, p: int)
    requires w.Valid() && p % 2 == 0
    ensures p in w.base.portFd <==> exists id :: id in w.base.at && w.base.at[id].port == p
    ensures p + 1 in w.base.portFd <==> p in w.base.portFd
  {
    hide On;
    PairAt(w.base.at, w.base.portListener, w.base.portFd.Keys, p);
    NoneOn(w.base.at, p);
  }

  lemma ManagedAt(w: RtcpWorker, id: int)
    requires w.Valid() && id in w.base.at
    ensures id in w.base.dests && id in w.base.management && w.base.management[id] != null
    ensures w.base.management[id].source.addr == w.base.at[id]
    ensures w.base.management[id].destinations == w.base.dests[id]
  {
  }

  lemma {:induction false} AllowedNext(calls: seq<Call>, n: nat)
    requires Orderly(calls) && n < |calls|
    ensures Allowed(Run(calls[..n]), calls[n]) && Run(calls[..n + 1]) == Step(Run(calls[..n]), calls[n])
  {
    hide Allowed, Step;
    assert calls[..n + 1][..n] == calls[..n];
    if n < |calls| - 1 {
      var front := calls[..|calls| - 1];
      AllowedNext(front, n);
      assert front[..n] == calls[..n];
    }
  }

  lemma StateKeys(w: RtcpWorker)
    requires w.Valid()
    ensures w.base.lists.Keys == w.base.at.Keys == w.base.dests.Keys
    ensures forall s :: s in w.pairs ==> s in w.base.lists && s + 1 in w.base.lists
  {
  }

  // ---------- what a run comes to ----------

  /** What a call means for the destinations of one RTP source */
  function EventFor(c: Call, id: int): Event {
    if c.id != id then Nothing
    else match c
      case NewSource(_, _, _) => Nothing
      case EndSource(_) => Clear
      case NewDestination(_, destId, ip, port) => Add(NewStream(destId, ip, port))
      case EndDestination(_, destId) => Remove(destId)
  }

  function EventsFor(calls: seq<Call>, id: int): (es: seq<Event>)
    ensures |es| == |calls| && forall i :: 0 <= i < |calls| ==> es[i] == EventFor(calls[i], id)
  {
    seq(|calls|, i requires 0 <= i < |calls| => EventFor(calls[i], id))
  }

  /** The tables keep their pairs. */
  ghost predicate Paired(s: State) {
    SourcePairs(s.pairs, s.at) && DestPairs(s.pairs, s.dests) && UniqueLists(s.dests) && s.at.Keys == s.dests.Keys
  }

  ghost function DestsOf(s: State, id: int): seq<Stream> {
    if id in s.pairs && id in s.dests then s.dests[id] else []
  }

  lemma StepPairs(s: State, c: Call)
    requires Paired(s) && Allowed(s, c)
    ensures Paired(Step(s, c))
  {
    hide UniqueIds, Added, Removed, Raised, SourcePairs, DestPairs;
    match c
    case NewSource(id, ip, port) =>
      PairsMore(s.pairs, s.at, id, Addr(ip, port));
      DestPairsMore(s.pairs, s.dests, id);
    case EndSource(id) =>
      PairsLess(s.pairs, s.at, id);
      DestPairsLess(s.pairs, s.at, s.dests, id);
      UpperThere(s, id);
    case NewDestination(id, destId, ip, port) =>
      AddedUnique(s.dests[id], NewStream(destId, ip, port));
      StepLists(s, id, Added(s.dests[id], NewStream(destId, ip, port)));
    case EndDestination(id, destId) =>
      RemovedUnique(s.dests[id], destId);
      StepLists(s, id, Removed(s.dests[id], destId));
  }

  lemma StepLists(s: State, id: int, d: seq<Stream>)
    requires Paired(s) && id in s.pairs && UniqueIds(d)
    ensures Paired(SetPair(s, id, d))
  {
    hide UniqueIds, SourcePairs, DestPairs;
    UpperThere(s, id);
    RaisedUnique(d);
    DestPairsSet(s.pairs, s.at, s.dests, id, d);
    assert s.dests[id := d][id + 1 := Raised(d)].Keys == s.dests.Keys;
  }

  lemma UpperThere(s: State, id: int)
    requires Paired(s) && id in s.pairs
    ensures id in s.dests && id + 1 in s.dests && id + 1 !in s.pairs && id - 1 !in s.pairs
    ensures s.dests[id + 1] == Raised(s.dests[id]) && s.at[id + 1] == Addr(s.at[id].ip, s.at[id].port + 1)
  {
  }

  lemma EventNext(s: State, c: Call, id: int)
    requires Paired(s) && Allowed(s, c)
    ensures var d := DestsOf(s, id);
      DestsOf(Step(s, c), id) ==
      match EventFor(c, id)
      case Add(x) => Added(d, x)
      case Remove(destId) => Removed(d, destId)
      case Clear => []
      case Nothing => d
  {
    hide Added, Removed, Raised, SourcePairs, DestPairs, UniqueLists, Taken;
    if c.id in s.pairs {
      UpperThere(s, c.id);
    }
    if id in s.pairs {
      UpperThere(s, id);
    }
  }

  lemma {:induction false} ListIs(calls: seq<Call>, id: int)
    requires Orderly(calls)
    ensures Paired(Run(calls)) && DestsOf(Run(calls), id) == Listed(EventsFor(calls, id))
    decreases |calls|
  {
    hide Step, Allowed, Paired, Raised;
    if calls == [] {
      NothingPaired();
    } else {
      var n := |calls| - 1;
      assert EventsFor(calls, id)[..n] == EventsFor(calls[..n], id);
      ListIs(calls[..n], id);
      StepPairs(Run(calls[..n]), calls[n]);
      EventNext(Run(calls[..n]), calls[n], id);
    }
  }

  lemma NothingPaired()
    ensures Paired(Registered({}, map[], map[]))
  {
  }

  /** A call that takes this destination away, or the source with it */
  predicate TakesAway(c: Call, id: int, destId: int) {
    c == EndDestination(id, destId) || c == EndSource(id)
  }

  predicate IsAdding(c: Call, id: int, destId: int) {
    c.NewDestination? && c.id == id && c.destId == destId
  }

  /** Call i brought this destination to the source, where no other one had its id then, and no later
      call took it away. */
  ghost predicate Brought(calls: seq<Call>, i: nat, id: int, destId: int, ip: int, port: int) {
    && i < |calls| && calls[i] == NewDestination(id, destId, ip, port)
    && (forall j :: i < j < |calls| ==> !TakesAway(calls[j], id, destId))
    && (forall j :: 0 <= j < i && IsAdding(calls[j], id, destId) ==>
          exists k :: j < k < i && TakesAway(calls[k], id, destId))
  }

  lemma CameBrought(calls: seq<Call>, i: nat, id: int, x: Stream)
    requires i < |calls|
    ensures Came(EventsFor(calls, id), i, x) <==>
      exists port :: Brought(calls, i, id, x.id, x.addr.ip, port) && port % 65536 == x.addr.port
  {
    hide EventsFor;
    var es := EventsFor(calls, id);
    forall j | 0 <= j < |calls|
      ensures Ends(es[j], x.id) <==> TakesAway(calls[j], id, x.id)
      ensures Adds(es[j], x.id) <==> IsAdding(calls[j], id, x.id)
    {
    }
    if Came(es, i, x) {
      assert Brought(calls, i, id, x.id, x.addr.ip, calls[i].port);
    }
  }

  lemma InRaised(d: seq<Stream>, x: Stream)
    ensures x in Raised(d) <==>
      exists y :: y in d && x == Stream(y.id + 1, Addr(y.addr.ip, (y.addr.port + 1) % 65536))
  {
    RaisedAt(d);
    if k :| 0 <= k < |Raised(d)| && Raised(d)[k] == x {
      assert d[k] in d;
    }
    if y :| y in d && x == Stream(y.id + 1, Addr(y.addr.ip, (y.addr.port + 1) % 65536)) {
      var k :| 0 <= k < |d| && d[k] == y;
      assert Raised(d)[k] == x;
    }
  }

  /** After a run the first list of a pair has exactly the destinations that were brought to it and not
      taken away since, at the addresses that were asked for. */
  lemma DestinationsAre(calls: seq<Call>, id: int, x: Stream)
    requires Orderly(calls) && id in Run(calls).pairs
    ensures id in Run(calls).dests && id + 1 in Run(calls).dests
    ensures x in Run(calls).dests[id] <==> exists i: nat, port ::
      Brought(calls, i, id, x.id, x.addr.ip, port) && x.addr.port == port % 65536
  {
    hide Run, Orderly, Came, Brought, Listed, SourcePairs, DestPairs, EventsFor;
    ListIs(calls, id);
    UpperThere(Run(calls), id);
    var es := EventsFor(calls, id);
    ListedExactly(es);
    if x in Listed(es) {
      var i :| 0 <= i < |es| && Came(es, i, x);
      CameBrought(calls, i, id, x);
    }
    if i: nat, port :| Brought(calls, i, id, x.id, x.addr.ip, port) && x.addr.port == port % 65536 {
      BroughtBelow(calls, i, id, x.id, x.addr.ip, port);
      CameBrought(calls, i, id, x);
      assert Came(es, i, x);
    }
  }

  lemma BroughtBelow(calls: seq<Call>, i: nat, id: int, destId: int, ip: int, port: int)
    requires Brought(calls, i, id, destId, ip, port)
    ensures i < |calls|
  {
  }

  /** And the second list has for each of them one with the id and the port above. */
  lemma UpperDestinationsAre(calls: seq<Call>, id: int, destId: int, a: Addr)
    requires Orderly(calls) && id in Run(calls).pairs
    ensures id + 1 in Run(calls).dests
    ensures Stream(destId + 1, a) in Run(calls).dests[id + 1] <==> exists i: nat, port ::
      Brought(calls, i, id, destId, a.ip, port) && a.port == (port + 1) % 65536
  {
    hide Run, Orderly, Brought, Raised, SourcePairs, DestPairs;
    ListIs(calls, id);
    var s, x := Run(calls), Stream(destId + 1, a);
    UpperThere(s, id);
    InRaised(s.dests[id], x);
    if y :| y in s.dests[id] && x == Stream(y.id + 1, Addr(y.addr.ip, (y.addr.port + 1) % 65536)) {
      DestinationsAre(calls, id, y);
    }
    if i: nat, port :| Brought(calls, i, id, destId, a.ip, port) && a.port == (port + 1) % 65536 {
      var y := Stream(destId, Addr(a.ip, port % 65536));
      DestinationsAre(calls, id, y);
      assert y in s.dests[id];
    }
  }

  /** Call i made id an RTP source with this address, which was free, and it has not ended since. */
  ghost predicate Joined(calls: seq<Call>, i: nat, id: int, a: Addr) {
    && i < |calls| && calls[i] == NewSource(id, a.ip, a.port)
    && (forall other :: other in Run(calls[..i]).at ==> Run(calls[..i]).at[other] != a)
    && (forall j :: i < j < |calls| ==> calls[j] != EndSource(id))
  }

  /** After a run the RTP sources are exactly those that joined and have not ended, and the second
      source of each has the port above. */
  lemma {:induction false} SourcesAre(calls: seq<Call>, id: int, a: Addr)
    requires Orderly(calls)
    ensures var s := Run(calls);
      && (id in s.pairs ==> id in s.at && id + 1 in s.at && s.at[id + 1] == Addr(s.at[id].ip, s.at[id].port + 1))
      && (id in s.pairs && s.at[id] == a <==> exists i :: 0 <= i < |calls| && Joined(calls, i, id, a))
    decreases |calls|
  {
    hide Step, Allowed, Joined, Paired, Raised;
    ListIs(calls, id);
    PairedAt(Run(calls), id);
    if calls != [] {
      var n := |calls| - 1;
      var front, c := calls[..n], calls[n];
      ListIs(front, id);
      SourcesAre(front, id, a);
      forall i | 0 <= i < n
        ensures Joined(calls, i, id, a) <==> Joined(front, i, id, a) && c != EndSource(id)
      {
        JoinedBefore(calls, i, id, a);
      }
      SourceStep(Run(front), c, id, a);
      JoinedLast(calls, id, a);
    }
  }

  lemma PairedAt(s: State, id: int)
    requires Paired(s)
    ensures id in s.pairs ==> id in s.at && id + 1 in s.at && s.at[id + 1] == Addr(s.at[id].ip, s.at[id].port + 1)
  {
  }

  lemma JoinedBefore(calls: seq<Call>, i: nat, id: int, a: Addr)
    requires i < |calls| - 1
    ensures Joined(calls, i, id, a) <==> Joined(calls[..|calls| - 1], i, id, a) && calls[|calls| - 1] != EndSource(id)
  {
    var front := calls[..|calls| - 1];
    assert front[..i] == calls[..i] && forall j :: 0 <= j < |front| ==> front[j] == calls[j];
  }

  lemma JoinedLast(calls: seq<Call>, id: int, a: Addr)
    requires calls != []
    ensures var n := |calls| - 1;
      Joined(calls, n, id, a) <==>
        calls[n] == NewSource(id, a.ip, a.port) && !Taken(Run(calls[..n]).at, a)
  {
  }

  lemma SourceStep(s: State, c: Call, id: int, a: Addr)
    requires Paired(s) && Allowed(s, c)
    ensures var t := Step(s, c);
      id in t.pairs && id in t.at && t.at[id] == a <==>
        (id in s.pairs && id in s.at && s.at[id] == a && c != EndSource(id))
        || (c == NewSource(id, a.ip, a.port) && !Taken(s.at, a))
  {
    hide Raised, Added, Removed, UniqueLists, DestPairs;
  }
}
