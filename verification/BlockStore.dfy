/** The block store: nested sequences of memory blocks that are collected piecewise and then
    saved in one contiguous piece.  Blocks are chained through their headers, newest first;
    reading a sequence out reverses its chain in place. */
module BlockStore {
  import opened Bytes

  const SOAP_BLKLEN: nat := 256    // the usual size of a block

  class Block {
    var next: Block?
    var size: nat
    const data: array<byte>

    constructor (next: Block?, n: nat)
      ensures this.next == next && size == n && fresh(data) && data.Length == n
    {
      this.next, size, data := next, n, new byte[n];
    }
  }

  ghost function Content(b: Block): seq<byte>
    reads b`size, b.data
  {
    if b.size <= b.data.Length then b.data[..b.size] else b.data[..]
  }

  /** The contents of the given blocks. */
  ghost function Data(bs: seq<Block>): (d: seq<seq<byte>>)
    reads bs`size, set b | b in bs :: b.data
    ensures |d| == |bs|
  {
    if bs == [] then []
    else Data(bs[..|bs| - 1]) + [Content(bs[|bs| - 1])]
  }

  ghost function TotalSize(bs: seq<Block>): nat
    reads bs`size
  {
    if bs == [] then 0
    else TotalSize(bs[..|bs| - 1]) + bs[|bs| - 1].size
  }

  ghost predicate Separate(bs: seq<Block>) {
    forall i, j :: 0 <= i < j < |bs| ==> bs[i] != bs[j] && bs[i].data != bs[j].data
  }

  lemma DataSnoc(bs: seq<Block>, b: Block)
    ensures Data(bs + [b]) == Data(bs) + [Content(b)]
    ensures TotalSize(bs + [b]) == TotalSize(bs) + b.size
  {
    assert (bs + [b])[..|bs|] == bs;
  }

  lemma SeparateSnoc(bs: seq<Block>, b: Block)
    requires Separate(bs) && forall c | c in bs :: c != b && c.data != b.data
    ensures Separate(bs + [b])
  {
    forall i, j | 0 <= i < j < |bs + [b]|
      ensures (bs + [b])[i] != (bs + [b])[j] && (bs + [b])[i].data != (bs + [b])[j].data
    {
      assert bs[i] in bs;
    }
  }

  /** The size field counts the bytes of the pieces. */
  lemma {:induction false} TotalSizeOfData(bs: seq<Block>)
    requires SizesFit(bs)
    ensures TotalSize(bs) == |Flatten(Data(bs))|
  {
    if bs != [] {
      var f := bs[..|bs| - 1];
      TotalSizeOfData(f);
      FlattenSnoc(Data(f), Content(bs[|bs| - 1]));
    }
  }

  /** A chain of blocks from ptr; bs lists it backwards, that is in push order. */
  ghost predicate Linked(ptr: Block?, bs: seq<Block>)
    reads bs`next
  {
    if bs == [] then ptr == null
    else ptr == bs[|bs| - 1] && Linked(ptr.next, bs[..|bs| - 1])
  }

  ghost predicate SizesFit(bs: seq<Block>)
    reads bs`size
  {
    forall i :: 0 <= i < |bs| ==> bs[i].size <= bs[i].data.Length
  }

  ghost predicate Chained(ptr: Block?, bs: seq<Block>)
    reads bs`next, bs`size
  {
    Linked(ptr, bs) && SizesFit(bs) && Separate(bs)
  }

  lemma ChainedSnoc(ptr: Block?, bs: seq<Block>, b: Block)
    requires Chained(ptr, bs) && b.next == ptr && b.size <= b.data.Length
    requires forall c | c in bs :: c != b && c.data != b.data
    ensures Chained(b, bs + [b])
  {
    assert (bs + [b])[..|bs|] == bs;
    SeparateSnoc(bs, b);
  }

  lemma ChainedFront(ptr: Block, bs: seq<Block>)
    requires Chained(ptr, bs)
    ensures bs != [] && bs[|bs| - 1] == ptr && Chained(ptr.next, bs[..|bs| - 1])
  {
  }

  lemma Different(bs: seq<Block>, i: nat, j: nat)
    requires Separate(bs) && i < |bs| && j < |bs| && i != j
    ensures bs[i] != bs[j]
  {
    if i < j {
    } else {
      assert bs[j] != bs[i];
    }
  }

  /** The last block of a front part is not in the part before it... */
  lemma TurnFront(bs: seq<Block>, k: nat)
    requires Separate(bs) && k < |bs|
    ensures bs[..k + 1][..k] == bs[..k] && bs[k] !in bs[..k]
  {
    PrefixNext(bs, k);
    forall i | 0 <= i < k
      ensures bs[..k][i] != bs[k]
    {
      Different(bs, i, k);
    }
  }

  /** ...and not among those turned round already. */
  lemma TurnBack(bs: seq<Block>, m: nat)
    requires Separate(bs) && m < |bs|
    ensures bs[|bs| - 1 - m] !in Reverse(bs)[..m]
  {
    var rev := Reverse(bs);
    forall i | 0 <= i < m
      ensures rev[..m][i] != bs[|bs| - 1 - m]
    {
      ReverseAt(bs, i);
      Different(bs, |bs| - 1 - i, |bs| - 1 - m);
    }
  }

  /** struct soap_blist: one block sequence */
  class BlockList {
    const next: BlockList?      // the sequence this one is nested in
    var ptr: Block?
    var size: nat
    ghost var blocks: seq<Block>       // in push order
    ghost var Repr: set<object>        // this header and its blocks, without their memory

    ghost predicate Valid()
      reads this, Repr
    {
      && this in Repr
      && (forall i :: 0 <= i < |blocks| ==> blocks[i] in Repr)
      && Chained(ptr, blocks)
      && size == TotalSize(blocks)
    }

    /** The blocks' contents, in push order. */
    ghost function Pieces(): seq<seq<byte>>
      reads this, blocks`size, Memory()
    {
      Data(blocks)
    }

    ghost function Memory(): set<array<byte>>
      reads this
    {
      set b | b in blocks :: b.data
    }

    constructor (next: BlockList?)
      ensures Valid() && this.next == next && blocks == [] && fresh(Repr)
    {
      this.next, ptr, size, blocks := next, null, 0, [];
      Repr := {this};
    }

    /** soap_push_block: a new last piece of n bytes, for the caller to fill */
    method Push(n: nat) returns (b: Block)
      requires Valid()
      modifies this
      ensures Valid() && blocks == old(blocks) + [b] && Repr == old(Repr) + {b}
      ensures fresh(b) && fresh(b.data) && b.data.Length == n && b.size == n
      ensures Memory() == old(Memory()) + {b.data}
      ensures Pieces() == old(Pieces()) + [b.data[..]]
    {
      hide TotalSize, Chained;
      b := new Block(ptr, n);
      DataSnoc(blocks, b);
      ChainedSnoc(ptr, blocks, b);
      assert Data(blocks) == old(Pieces()) && Content(b) == b.data[..];
      blocks := blocks + [b];
      Repr := Repr + {b};
      ptr := b;
      size := size + n;
    }

    /** soap_pop_block: drops the last piece, if there is one */
    method Pop()
      requires Valid()
      modifies this`ptr, this`size, this`blocks
      ensures Valid() && blocks == if old(blocks) == [] then [] else old(blocks)[..|old(blocks)| - 1]
    {
      if ptr == null {
        return;
      }
      ChainedFront(ptr, blocks);
      size := size - ptr.size;
      ptr := ptr.next;
      blocks := blocks[..|blocks| - 1];
    }

    /** soap_size_block: shortens the last piece to its first n bytes */
    method Shorten(n: nat) returns (total: nat)
      requires Valid()
      requires ptr != null ==> n <= ptr.size
      modifies this`size, blocks`size
      ensures Valid() && total == size
      ensures blocks == [] ==> Pieces() == []
      ensures blocks != [] ==>
        var last := |old(Pieces())| - 1;
        n <= |old(Pieces())[last]| && Pieces() == old(Pieces())[..last] + [old(Pieces())[last][..n]]
    {
      if ptr != null {
        ghost var front := blocks[..|blocks| - 1];
        ghost var d, t, piece := Data(front), TotalSize(front), Content(ptr);
        size := size - (ptr.size - n);
        ptr.size := n;
        assert Data(front) == d && TotalSize(front) == t && Content(ptr) == piece[..n];
      }
      total := size;
    }

    /** soap_first_block: turns the chain round so that it can be read in push order */
    method First() returns (b: Block?)
      requires Linked(ptr, blocks) && Separate(blocks)
      modifies this`ptr, this`blocks, blocks`next
      ensures Linked(ptr, blocks) && blocks == Reverse(old(blocks)) && b == ptr
    {
      ghost var bs, n := blocks, |blocks|;
      ghost var front, back: seq<Block> := bs, [];
      hide Separate, Reverse;
      var p, r: Block? := ptr, null;
      assert bs[..n] == bs;
      while p != null
        invariant |back| <= n && front == bs[..n - |back|] && back == Reverse(bs)[..|back|]
        invariant Linked(p, front) && Linked(r, back)
        decreases |front|
      {
        TurnFront(bs, n - 1 - |back|);
        TurnBack(bs, |back|);
        PrefixNext(Reverse(bs), |back|);
        ReverseAt(bs, |back|);
        front, back := bs[..n - 1 - |back|], back + [p];
        var q := p.next;
        p.next := r;
        r := p;
        p := q;
      }
      assert Reverse(bs)[..n] == Reverse(bs);
      ptr := r;
      blocks := back;
      b := ptr;
    }

    /** soap_next_block: frees the block at ptr and steps to the next one */
    method Next() returns (b: Block?)
      requires Linked(ptr, blocks)
      modifies this`ptr, this`blocks
      ensures Linked(ptr, blocks) && b == ptr
      ensures blocks == if old(blocks) == [] then [] else old(blocks)[..|old(blocks)| - 1]
    {
      if ptr != null {
        ptr := ptr.next;
        blocks := blocks[..|blocks| - 1];
      }
      b := ptr;
    }

    /** soap_save_block's use of the chain: turn it round, then copy block after block. */
    method CopyOut(r: array<byte>, at: nat)
      requires Linked(ptr, blocks) && Separate(blocks) && SizesFit(blocks)
      requires at + |Flatten(Pieces())| <= r.Length
      requires r !in Memory()
      modifies this`ptr, this`blocks, blocks`next, r
      ensures old(r[..at] + Flatten(Pieces())) <= r[..]
    {
      ghost var bs, d := blocks, Pieces();
      HoldsData(bs);
      var q := First();
      CopyRest(r, at, q, bs, d);
    }

    method CopyRest(r: array<byte>, at: nat, first: Block?, ghost bs: seq<Block>, ghost d: seq<seq<byte>>)
      requires blocks == Reverse(bs) && Linked(ptr, blocks) && first == ptr && Holds(bs, d)
      requires at + |Flatten(d)| <= r.Length
      requires r !in set b | b in bs :: b.data
      modifies this`ptr, this`blocks, r
      ensures old(r[..at]) + Flatten(d) <= r[..]
    {
      hide Flatten, Holds, Linked, Content, Reverse;
      ghost var all, todo, left := r[..at] + Flatten(d), bs, d;
      var q, s := first, at;
      while q != null
        invariant blocks == Reverse(todo) && Linked(ptr, blocks) && q == ptr
        invariant Holds(todo, left) && r !in set b | b in todo :: b.data
        invariant 0 <= s <= r.Length && r[..s] + Flatten(left) == all
        decreases |todo|
      {
        LinkedLast(q, blocks);
        ReverseFirst(todo);
        HoldsFirst(todo, left);
        FlattenFirst(left);
        CopyBlock(r, s, q, Flatten(left[1..]));
        s := s + q.size;
        todo, left := todo[1..], left[1..];
        q := Next();
      }
      LinkedLast(q, blocks);
      NothingLeft(todo, left);
    }
  }

  /** The block in front of the chain is the last one of the list, and the first one of its reverse. */
  lemma LinkedLast(p: Block?, bs: seq<Block>)
    requires Linked(p, bs)
    ensures if p == null then bs == [] else bs != [] && bs[|bs| - 1] == p
  {
  }

  lemma ReverseFirst(bs: seq<Block>)
    requires bs != []
    ensures Reverse(bs)[|bs| - 1] == bs[0] && Reverse(bs)[..|bs| - 1] == Reverse(bs[1..])
  {
  }

  lemma HoldsFirst(bs: seq<Block>, d: seq<seq<byte>>)
    requires Holds(bs, d) && bs != []
    ensures d != [] && bs[0].size <= bs[0].data.Length && Content(bs[0]) == d[0] && Holds(bs[1..], d[1..])
    ensures |d[0]| == bs[0].size && bs[0] in bs && forall b :: b in bs[1..] ==> b in bs
  {
  }

  lemma NothingLeft(bs: seq<Block>, d: seq<seq<byte>>)
    requires Holds(bs, d) && bs == []
    ensures Flatten(d) == []
  {
  }

  /** The blocks bs contain the pieces d. */
  ghost predicate Holds(bs: seq<Block>, d: seq<seq<byte>>)
    reads bs`size, set b | b in bs :: b.data
  {
    if bs == [] || d == [] then bs == [] && d == []
    else bs[0].size <= bs[0].data.Length && Content(bs[0]) == d[0] && Holds(bs[1..], d[1..])
  }

  method CopyBlock(r: array<byte>, s: nat, q: Block, ghost later: seq<byte>)
    requires q.size <= q.data.Length && q.data != r && s + q.size <= r.Length
    modifies r
    ensures |Content(q)| == q.size && r[..s + q.size] + later == old(r[..s]) + (Content(q) + later)
  {
    CopyInto(r, s, q.data[..q.size]);
    assert r[..s + q.size] == r[..s] + r[s..s + q.size];
  }

  lemma {:induction false} HoldsData(bs: seq<Block>)
    requires SizesFit(bs)
    ensures Holds(bs, Data(bs))
  {
    if bs != [] {
      DataHead(bs);
      HoldsData(bs[1..]);
    }
  }

  lemma {:induction false} DataHead(bs: seq<Block>)
    requires bs != []
    ensures Data(bs) == [Content(bs[0])] + Data(bs[1..])
  {
    var f := bs[..|bs| - 1];
    if f == [] {
      assert bs[1..] == [];
    } else {
      DataHead(f);
      assert f[1..] == bs[1..][..|f| - 1];
    }
  }

  lemma SizeOfPieces(l: BlockList)
    requires l.Valid()
    ensures l.size == |Flatten(l.Pieces())|
  {
    TotalSizeOfData(l.blocks);
  }

  /** The block sequences of a `struct soap`: soap->blist is the innermost one. */
  class Store {
    var blist: BlockList?

    constructor ()
      ensures blist == null
    {
      blist := null;
    }

    /** soap_new_block */
    method NewBlock()
      modifies this
      ensures blist != null && fresh(blist) && fresh(blist.Repr)
      ensures blist.next == old(blist) && blist.Valid() && blist.blocks == []
    {
      blist := new BlockList(blist);
    }

    /** soap_end_block */
    method EndBlock()
      modifies this
      ensures blist == if old(blist) == null then null else old(blist).next
    {
      if blist != null {
        blist := blist.next;
      }
    }

    /** soap_save_block: the pieces of the innermost sequence, one after the other, in `p` from
        index `at` on, or in new memory (none for no bytes).  The sequence is given up. */
    method SaveBlock(p: array?<byte>, at: nat) returns (r: array?<byte>)
      requires blist != null && blist.Valid()
      requires p == null ==> at == 0
      requires p != null ==> at + |Flatten(blist.Pieces())| <= p.Length && p !in blist.Memory()
      modifies this, blist`ptr, blist`blocks, blist.blocks`next, if p == null then {} else {p}
      ensures blist == old(blist).next
      ensures p != null ==> r == p && old(p[..at] + Flatten(blist.Pieces())) <= r[..]
      ensures p == null && r == null ==> old(Flatten(blist.Pieces())) == []
      ensures p == null && r != null ==> fresh(r) && r[..] == old(Flatten(blist.Pieces()))
    {
      TotalSizeOfData(blist.blocks);
      r := p;
      if blist.size != 0 {
        if r == null {
          r := new byte[blist.size];
        }
        blist.CopyOut(r, at);
      }
      EndBlock();
    }
  }

  lemma WholeContent(b: Block)
    requires b.size == b.data.Length
    ensures Content(b) == b.data[..b.size]
  {
  }

  /** Collects bytes one at a time in blocks of k: the pattern of soap_get_mime_attachment, which
      fills a block, pushes the next one when it is full, cuts the last one to size and saves the
      whole with a final zero. */
  class BlockWriter {
    const st: Store
    const head: BlockList
    const k: nat
    var b: Block        // the block that is being filled
    var i: nat          // how far
    ghost var written: seq<byte>
    ghost var Memory: set<array<byte>>

    ghost predicate Valid()
      reads this, st, head, head.Repr, Memory
    {
      && k > 0 && st.blist == head && head.Valid()
      && head.blocks != [] && b == head.blocks[|head.blocks| - 1]
      && i <= k == b.size == b.data.Length
      && Memory == head.Memory()
      && written == Flatten(Data(head.blocks[..|head.blocks| - 1])) + b.data[..i]
    }

    constructor (st: Store, k: nat)
      requires k > 0
      modifies st
      ensures Valid() && this.st == st && this.k == k && head.next == old(st.blist)
      ensures written == [] && fresh(head) && fresh(head.Repr) && fresh(Memory)
    {
      hide Chained, TotalSize, Data, Content;
      st.NewBlock();
      var l := st.blist;
      var block := l.Push(k);
      this.st, this.k, head, b, i := st, k, l, block, 0;
      written, Memory := [], l.Memory();
      new;
      NoData();
      assert head.blocks[..0] == [];
    }

    /** Pushes a new block if the current one is full. */
    method Room()
      requires Valid()
      modifies this, head
      ensures Valid() && i < k && written == old(written)
      ensures fresh(head.Repr - old(head.Repr)) && fresh(Memory - old(Memory))
    {
      hide Data, Flatten, Chained, TotalSize, Content;
      if i == k {
        ghost var full := head.blocks;
        DataSnoc(full[..|full| - 1], b);
        FlattenSnoc(Data(full[..|full| - 1]), Content(b));
        assert full == full[..|full| - 1] + [b];
        WholeContent(b);
        assert written == Flatten(Data(full));
        ghost var d := Data(full);
        b := head.Push(k);
        i := 0;
        Memory := head.Memory();
        assert head.blocks[..|head.blocks| - 1] == full;
        assert Data(full) == d;
        assert written == Flatten(d) + b.data[..0];
      }
    }

    /** *s++ = c */
    method Put(c: byte)
      requires Valid() && i < k
      modifies this`i, this`written, Memory
      ensures Valid() && written == old(written) + [c] && Memory == old(Memory)
    {
      hide Data, Flatten, Chained, TotalSize, Content;
      ghost var front := head.blocks[..|head.blocks| - 1];
      FrontApart(head.ptr, head.blocks);
      ghost var d := Data(front);
      b.data[i] := c;
      assert Data(front) == d;
      assert b.data[..i + 1] == old(b.data[..i]) + [c];
      i := i + 1;
      written := written + [c];
    }

    /** Ends the text with a zero, cuts the last block to size and saves the whole. */
    method Finish() returns (r: array<byte>)
      requires Valid() && i < k
      modifies this`i, this`written, st, head.Repr, Memory
      ensures fresh(r) && r[..] == old(written) + [0]
      ensures st.blist == head.next
    {
      ghost var front := head.blocks[..|head.blocks| - 1];
      Put(0);
      ghost var d, last := Data(front), b.data[..i];
      DataSnoc(front, b);
      FlattenSnoc(d, last);
      assert head.blocks == front + [b];
      assert written == Flatten(d + [last]);
      assert head.ptr == b && Content(b)[..i] == last;
      assert head.Pieces() == d + [Content(b)];
      hide Data, Flatten, Chained, TotalSize;
      var total := head.Shorten(i);
      assert head.Pieces() == d + [last];
      r := SaveText(st, written);
    }
  }

  method SaveText(st: Store, ghost text: seq<byte>) returns (r: array<byte>)
    requires st.blist != null && st.blist.Valid()
    requires Flatten(st.blist.Pieces()) == text != []
    modifies st, st.blist, st.blist.blocks`next
    ensures fresh(r) && r[..] == text && st.blist == old(st.blist).next
  {
    hide Chained, TotalSize, Data;
    var p := st.SaveBlock(null, 0);
    r := p;
  }

  lemma FrontApart(p: Block?, bs: seq<Block>)
    requires bs != [] && Chained(p, bs)
    ensures bs[|bs| - 1].data !in set c | c in bs[..|bs| - 1] :: c.data
  {
  }

  method PushBytes(l: BlockList, s: seq<byte>)
    requires l.Valid()
    modifies l
    ensures l.Valid() && fresh(l.Repr - old(l.Repr)) && fresh(l.Memory() - old(l.Memory()))
    ensures l.Pieces() == old(l.Pieces()) + [s]
  {
    hide Chained, TotalSize, Data;
    ghost var bs, d := l.blocks, l.Pieces();
    var b := l.Push(|s|);
    CopyInto(b.data, 0, s);
    assert Data(bs) == d;
    DataSnoc(bs, b);
  }

  lemma NoData()
    ensures Data([]) == []
  {
  }

  /** What a caller collects: pieces of its own, with whole sequences collected in between. */
  datatype Item = Piece(bytes: seq<byte>) | Nested(items: seq<Item>)

  /** The bytes that belong to the sequence itself. */
  function OwnPieces(items: seq<Item>): seq<seq<byte>> {
    if items == [] then []
    else OwnPieces(items[..|items| - 1]) +
         match items[|items| - 1] case Piece(s) => [s] case Nested(_) => []
  }

  lemma OwnPiecesNext(items: seq<Item>, i: nat)
    requires i < |items|
    ensures OwnPieces(items[..i + 1]) ==
            OwnPieces(items[..i]) + match items[i] case Piece(s) => [s] case Nested(_) => []
  {
    assert items[..i + 1][..i] == items[..i];
  }

  /** However sequences are nested, saving one yields its own pieces in push order; the sequence
      it is nested in keeps its chain and its memory, for only new objects are written to. */
  method Collect(st: Store, items: seq<Item>) returns (r: array?<byte>)
    modifies st
    ensures st.blist == old(st.blist)
    ensures r != null ==> fresh(r) && r[..] == Flatten(OwnPieces(items))
    ensures r == null ==> Flatten(OwnPieces(items)) == []
    decreases items
  {
    hide Chained, TotalSize, Data;
    st.NewBlock();
    var head := st.blist;
    assert head.Pieces() == [] by { NoData(); }
    for i := 0 to |items|
      invariant st.blist == head && head.Valid() && fresh(head.Repr) && head.next == old(st.blist)
      invariant fresh(head.Memory())
      invariant head.Pieces() == OwnPieces(items[..i])
    {
      OwnPiecesNext(items, i);
      match items[i] {
        case Piece(s) =>
          PushBytes(head, s);
        case Nested(inner) =>
          var _ := Collect(st, inner);
      }
    }
    assert items[..|items|] == items;
    r := st.SaveBlock(null, 0);
  }
}
