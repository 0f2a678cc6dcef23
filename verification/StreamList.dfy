/** Replication lists: a source and the destinations its packets are sent on to. */
module StreamLists {

  datatype Addr = Addr(ip: int, port: int)

  /** UdpStream, as far as the tables need it */
  datatype Stream = Stream(id: int, addr: Addr)

  /** setId and setAddr: the port is kept in 16 bits. */
  function NewStream(id: int, ip: int, port: int): Stream {
    Stream(id, Addr(ip, port % 65536))
  }

  /** The place of the stream with this id, or the length. */
  function Place(d: seq<Stream>, id: int): (i: nat)
    ensures i <= |d| && (i < |d| ==> d[i].id == id)
  {
    if d == [] || d[0].id == id then 0 else 1 + Place(d[1..], id)
  }

  predicate Has(d: seq<Stream>, id: int) {
    exists i :: 0 <= i < |d| && d[i].id == id
  }

  predicate UniqueIds(d: seq<Stream>) {
    forall i, j :: 0 <= i < j < |d| ==> d[i].id != d[j].id
  }

  function Added(d: seq<Stream>, s: Stream): seq<Stream> {
    if Place(d, s.id) < |d| then d else d + [s]
  }

  function Removed(d: seq<Stream>, id: int): seq<Stream> {
    var i := Place(d, id);
    if i < |d| then d[..i] + d[i + 1..] else d
  }

  lemma {:induction false} PlaceIs(d: seq<Stream>, id: int, i: nat)
    requires i <= |d| && (forall j :: 0 <= j < i ==> d[j].id != id) && (i < |d| ==> d[i].id == id)
    ensures Place(d, id) == i
  {
    if i > 0 {
      PlaceIs(d[1..], id, i - 1);
    }
  }

  lemma {:induction false} PlaceHas(d: seq<Stream>, id: int)
    ensures Place(d, id) < |d| <==> Has(d, id)
    ensures forall j :: 0 <= j < Place(d, id) ==> d[j].id != id
  {
    if d != [] {
      PlaceHas(d[1..], id);
      assert forall i :: 0 < i < |d| ==> d[i] == d[1..][i - 1];
      if Has(d[1..], id) {
        var i :| 0 <= i < |d[1..]| && d[1..][i].id == id;
        assert d[i + 1].id == id;
      }
    }
  }

  /** A stream with a new id comes behind all others; with an id that is taken nothing happens. */
  lemma AddedIs(d: seq<Stream>, s: Stream)
    ensures Added(d, s) == if exists i :: 0 <= i < |d| && d[i].id == s.id then d else d + [s]
  {
    PlaceHas(d, s.id);
    assert Has(d, s.id) <==> exists i :: 0 <= i < |d| && d[i].id == s.id;
  }

  /** One stream with this id goes, the others keep their order. */
  lemma RemovedIs(d: seq<Stream>, id: int)
    ensures if exists i :: 0 <= i < |d| && d[i].id == id
            then exists i :: 0 <= i < |d| && d[i].id == id && Removed(d, id) == d[..i] + d[i + 1..]
            else Removed(d, id) == d
  {
    PlaceHas(d, id);
    assert Has(d, id) <==> exists i :: 0 <= i < |d| && d[i].id == id;
    if Has(d, id) {
      assert d[Place(d, id)].id == id;
    }
  }

  /** Adding keeps the ids unique; the new stream is there unless its id was taken. */
  lemma AddedUnique(d: seq<Stream>, s: Stream)
    requires UniqueIds(d)
    ensures UniqueIds(Added(d, s)) && Has(Added(d, s), s.id)
    ensures forall x :: x in Added(d, s) <==> x in d || (x == s && !Has(d, s.id))
  {
    AddedIs(d, s);
    var r := Added(d, s);
    if !Has(d, s.id) {
      assert r[|d|] == s;
    }
  }

  /** Removing takes out this id and no other. */
  lemma RemovedUnique(d: seq<Stream>, id: int)
    requires UniqueIds(d)
    ensures UniqueIds(Removed(d, id)) && !Has(Removed(d, id), id)
    ensures forall x :: x in Removed(d, id) <==> x in d && x.id != id
  {
    PlaceHas(d, id);
    var r, k := Removed(d, id), Place(d, id);
    hide Place;
    assert forall i :: 0 <= i < |r| ==> r[i] == d[if i < k then i else i + 1];
    forall x | x in d && x.id != id
      ensures x in r
    {
      var i :| 0 <= i < |d| && d[i] == x;
      assert r[if i < k then i else i - 1] == x;
    }
    forall x | x in r
      ensures x in d && x.id != id
    {
      var i :| 0 <= i < |r| && r[i] == x;
      assert d[if i < k then i else i + 1] == x;
    }
  }

  /** Adding a new stream and removing it again restores the list. */
  lemma AddedRemoved(d: seq<Stream>, s: Stream)
    requires !Has(d, s.id)
    ensures Removed(Added(d, s), s.id) == d
  {
    PlaceHas(d, s.id);
    PlaceIs(d + [s], s.id, |d|);
    assert (d + [s])[..|d|] + (d + [s])[|d| + 1..] == d;
  }

  // ---------- what a list holds after a run ----------

  /** What may happen to a list */
  datatype Event = Add(s: Stream) | Remove(id: int) | Clear | Nothing

  function Listed(es: seq<Event>): seq<Stream> {
    if es == [] then []
    else
      var d := Listed(es[..|es| - 1]);
      match es[|es| - 1]
      case Add(s) => Added(d, s)
      case Remove(id) => Removed(d, id)
      case Clear => []
      case Nothing => d
  }

  /** A stream with this id is not in the list afterwards. */
  predicate Ends(e: Event, id: int) {
    e == Remove(id) || e == Clear
  }

  predicate Adds(e: Event, id: int) {
    e.Add? && e.s.id == id
  }

  /** The stream x came with the event i, has not gone since, and its id was not taken then. */
  ghost predicate Came(es: seq<Event>, i: nat, x: Stream) {
    && i < |es| && es[i] == Add(x)
    && (forall j :: i < j < |es| ==> !Ends(es[j], x.id))
    && (forall j :: 0 <= j < i && Adds(es[j], x.id) ==> exists k :: j < k < i && Ends(es[k], x.id))
  }

  ghost predicate Stays(es: seq<Event>, x: Stream) {
    exists i :: 0 <= i < |es| && Came(es, i, x)
  }

  /** An addition for this id that no end follows */
  ghost predicate StillAdds(es: seq<Event>, j: nat, id: int) {
    j < |es| && Adds(es[j], id) && forall k :: j < k < |es| ==> !Ends(es[k], id)
  }

  /** The first of them brought the stream. */
  lemma {:induction false} FirstAdds(es: seq<Event>, id: int, j: nat) returns (i: nat)
    requires StillAdds(es, j, id)
    ensures i < |es| && Adds(es[i], id) && Came(es, i, es[i].s)
    decreases j
  {
    if m :| 0 <= m < j && Adds(es[m], id) && forall k :: m < k < j ==> !Ends(es[k], id) {
      i := FirstAdds(es, id, m);
    } else {
      i := j;
    }
  }

  lemma HasIfAdds(es: seq<Event>, d: seq<Stream>, id: int)
    requires forall x :: x in d <==> Stays(es, x)
    ensures Has(d, id) <==> exists j :: 0 <= j < |es| && StillAdds(es, j, id)
  {
    if k :| 0 <= k < |d| && d[k].id == id {
      assert Stays(es, d[k]);
      var i :| 0 <= i < |es| && Came(es, i, d[k]);
      assert StillAdds(es, i, id);
    }
    if j :| 0 <= j < |es| && StillAdds(es, j, id) {
      var i := FirstAdds(es, id, j);
      assert Stays(es, es[i].s);
      var k :| 0 <= k < |d| && d[k] == es[i].s;
    }
  }

  lemma CameBefore(es: seq<Event>, e: Event, x: Stream)
    ensures forall i :: 0 <= i < |es| ==> (Came(es + [e], i, x) <==> Came(es, i, x) && !Ends(e, x.id))
  {
    var more := es + [e];
    assert forall j :: 0 <= j < |es| ==> more[j] == es[j];
    forall i | 0 <= i < |es|
      ensures Came(more, i, x) <==> Came(es, i, x) && !Ends(e, x.id)
    {
      assert more[|es|] == e;
    }
  }

  lemma CameLast(es: seq<Event>, e: Event, x: Stream)
    ensures Came(es + [e], |es|, x) <==> e == Add(x) && forall j :: 0 <= j < |es| ==> !StillAdds(es, j, x.id)
  {
    var more := es + [e];
    assert forall j :: 0 <= j < |es| ==> more[j] == es[j];
    forall j | 0 <= j < |es|
      ensures StillAdds(es, j, x.id) <==> Adds(more[j], x.id) && forall k :: j < k < |es| ==> !Ends(more[k], x.id)
    {
    }
  }

  lemma StaysNext(es: seq<Event>, e: Event, d: seq<Stream>, x: Stream)
    requires forall y :: y in d <==> Stays(es, y)
    ensures Stays(es + [e], x) <==> (x in d && !Ends(e, x.id)) || (e == Add(x) && !Has(d, x.id))
  {
    hide Came, Has, StillAdds, Ends;
    HasIfAdds(es, d, x.id);
    CameBefore(es, e, x);
    CameLast(es, e, x);
    var more := es + [e];
    if Stays(es, x) && !Ends(e, x.id) {
      var i :| 0 <= i < |es| && Came(es, i, x);
      assert Came(more, i, x);
    }
    if e == Add(x) && !Has(d, x.id) {
      assert Came(more, |es|, x);
    }
    if i :| 0 <= i < |more| && Came(more, i, x) {
      assert i < |es| ==> Came(es, i, x);
    }
  }

  /** What a list holds are the streams that came and have not gone since, each under the first of the
      additions for its id. */
  lemma {:induction false} ListedExactly(es: seq<Event>)
    ensures UniqueIds(Listed(es))
    ensures forall x :: x in Listed(es) <==> exists i :: 0 <= i < |es| && Came(es, i, x)
    decreases |es|
  {
    hide Came, Has, UniqueIds, Added, Removed;
    if es == [] {
      NoneTwice();
    } else {
      var front, e := es[..|es| - 1], es[|es| - 1];
      ListedExactly(front);
      assert front + [e] == es;
      var d := Listed(front);
      match e {
        case Add(s) => AddedUnique(d, s);
        case Remove(id) => RemovedUnique(d, id);
        case Clear => NoneTwice();
        case Nothing =>
      }
      forall x
        ensures x in Listed(es) <==> Stays(es, x)
      {
        assert forall y :: y in d <==> Stays(front, y);
        StaysNext(front, e, d, x);
      }
    }
  }

  lemma NoneTwice()
    ensures UniqueIds([])
  {
  }

  class StreamList {
    var listId: int
    var source: Stream
    var destinations: seq<Stream>

    constructor (listId: int, source: Stream)
      ensures this.listId == listId && this.source == source && destinations == []
    {
      this.listId, this.source, destinations := listId, source, [];
    }

    /** findDestination; the length stands for the end of the list */
    method FindDestination(id: int) returns (it: nat)
      ensures it == Place(destinations, id)
    {
      it := 0;
      while it < |destinations|
        invariant it <= |destinations| && forall j :: 0 <= j < it ==> destinations[j].id != id
      {
        if destinations[it].id == id {
          break;
        }
        it := it + 1;
      }
      PlaceIs(destinations, id, it);
    }

    method ExistDestination(id: int) returns (found: bool)
      ensures found <==> Has(destinations, id)
    {
      var it := 0;
      while it < |destinations|
        invariant it <= |destinations| && forall j :: 0 <= j < it ==> destinations[j].id != id
      {
        if destinations[it].id == id {
          return true;
        }
        it := it + 1;
      }
      found := false;
    }

    method AddDestination(destination: Stream) returns (ok: bool)
      modifies this`destinations
      ensures destinations == Added(old(destinations), destination)
      ensures ok <==> !Has(old(destinations), destination.id)
      ensures ok ==> destinations == old(destinations) + [destination]
    {
      PlaceHas(destinations, destination.id);
      var found := ExistDestination(destination.id);
      if found {
        return false;
      } else {
        destinations := destinations + [destination];
        return true;
      }
    }

    /** remDestination; the end of the list may not be looked at, so the id must exist. */
    method RemDestination(id: int) returns (ok: bool)
      requires Has(destinations, id)
      modifies this`destinations
      ensures ok && destinations == Removed(old(destinations), id)
    {
      PlaceHas(destinations, id);
      var it := FindDestination(id);
      if destinations[it].id == id {
        destinations := destinations[..it] + destinations[it + 1..];
        return true;
      }
      ok := false;
    }
  }
}
