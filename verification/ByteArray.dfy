/**
 The byte array of sylar/bytearray.cc: a linked list of chunks with a cursor.

 Every operation is proved against the flat memory of `FlatBuffer`, whatever the chunk size
 and however many chunk boundaries the operation crosses.
 */
module ByteArrays {
  import opened Bits
  import opened FlatBuffer
  import opened Chunks

  class Node {
    const ptr: array<byte>
    const size: nat
    var next: Node?

    constructor (s: nat)
      ensures ptr.Length == s && size == s && next == null && fresh(ptr)
    {
      ptr := new byte[s];
      size := s;
      next := null;
    }
  }

  /** A region of a chunk, as handed to the socket calls. */
  datatype Iovec = Iovec(base: array<byte>, off: nat, len: nat)

  function NodeAt(nodes: seq<Node>, i: nat): Node? {
    if i < |nodes| then nodes[i] else null
  }

  /** Node i links to node i + 1 and holds chunk i of the flat memory. */
  ghost predicate Placed(nodes: seq<Node>, mem: seq<byte>, b: nat, i: nat)
    requires i < |nodes|
    reads nodes[i], nodes[i].ptr
  {
    && nodes[i].next == NodeAt(nodes, i + 1)
    && At(i, b) + b <= |mem|
    && nodes[i].ptr.Length == b
    && forall k :: 0 <= k < b ==> nodes[i].ptr[k] == mem[At(i, b) + k]
  }

  /** The region lies in one chunk, at flat position `at`. */
  ghost predicate RegionAt(nodes: seq<Node>, b: nat, v: Iovec, at: nat)
    requires b >= 1
  {
    && Index(at, b) < |nodes|
    && v.base == nodes[Index(at, b)].ptr
    && v.off == at - At(Index(at, b), b)
    && v.off + v.len <= b
    && v.len >= 1
  }

  /** The regions cover the len flat bytes from p on, in order, each inside one chunk. */
  ghost predicate ViewsAt(nodes: seq<Node>, b: nat, iovs: seq<Iovec>, p: nat, len: nat)
    requires b >= 1
    decreases |iovs|
  {
    if iovs == [] then len == 0
    else
      var v := iovs[|iovs| - 1];
      && v.len <= len
      && RegionAt(nodes, b, v, p + len - v.len)
      && ViewsAt(nodes, b, iovs[..|iovs| - 1], p, len - v.len)
  }

  lemma ViewsExtend(nodes: seq<Node>, b: nat, iovs: seq<Iovec>, p: nat, len: nat, v: Iovec)
    requires b >= 1 && ViewsAt(nodes, b, iovs, p, len)
    requires RegionAt(nodes, b, v, p + len)
    ensures ViewsAt(nodes, b, iovs + [v], p, len + v.len)
  {
    assert (iovs + [v])[..|iovs|] == iovs;
  }

  /** The bytes a gathering send takes from the regions. */
  ghost function ViewBytes(iovs: seq<Iovec>): seq<byte>
    requires forall v <- iovs :: v.off + v.len <= v.base.Length
    reads set v | v in iovs :: v.base
  {
    if iovs == [] then []
    else
      var v := iovs[|iovs| - 1];
      ViewBytes(iovs[..|iovs| - 1]) + v.base[v.off..v.off + v.len]
  }

  method Memcpy(dst: array<byte>, off: nat, src: seq<byte>)
    requires off + |src| <= dst.Length
    modifies dst
    ensures forall k :: 0 <= k < dst.Length ==>
              dst[k] == if off <= k < off + |src| then src[k - off] else old(dst[k])
  {
    forall i | 0 <= i < |src| {
      dst[off + i] := src[i];
    }
  }

  class ByteArray {
    const baseSize: nat
    const host: int
    var position: nat
    var capacity: nat
    var size: nat
    var endian: int
    var root: Node
    var cur: Node?

    ghost var nodes: seq<Node>
    ghost var mem: seq<byte>  // the contents of the nodes, end to end
    ghost var where: map<array<byte>, nat>  // the chunk number of each node's array
    ghost var Repr: set<object>

    /** The chunks are a proper list of equal, separate arrays, and the capacity counts them. */
    ghost predicate ListOk()
      reads this, Repr
    {
      && this in Repr
      && baseSize >= 1
      && |nodes| >= 1 && root == nodes[0]
      && (forall i :: 0 <= i < |nodes| ==>
            && nodes[i] in Repr && nodes[i].ptr in Repr
            && nodes[i].size == baseSize == nodes[i].ptr.Length
            && nodes[i].ptr in where && where[nodes[i].ptr] == i)
      && (forall i {:trigger Placed(nodes, mem, baseSize, i)} ::
            0 <= i < |nodes| ==> Placed(nodes, mem, baseSize, i))
      && |mem| == capacity == At(|nodes|, baseSize)
    }

    /** The cursor chunk is the one holding the position, and null exactly at the capacity. */
    ghost predicate Valid()
      reads this, Repr
    {
      && ListOk()
      && position <= size <= capacity
      && cur == NodeAt(nodes, Index(position, baseSize))
    }

    ghost function State(): Buffer
      reads this
    {
      Buffer(baseSize, mem, position, size, endian)
    }

    /** The flat reading of a valid array is consistent, and the cursor chunk is null at the end. */
    lemma StateSane()
      requires Valid()
      ensures State().Sane()
      ensures cur == null <==> position == capacity
      ensures cur == NodeAt(nodes, position / baseSize) && capacity == |nodes| * baseSize
    {
      IndexWithin(position, baseSize, |nodes|);
      IndexBounds(position, baseSize);
      AtIsProduct(|nodes|, baseSize);
    }

    /** The source leaves the byte order unset here, so it may be anything. */
    constructor (base_size: nat, host: int)
      requires base_size >= 1
      ensures Valid() && fresh(Repr)
      ensures baseSize == base_size && this.host == host
      ensures position == 0 && size == 0 && capacity == base_size
    {
      var node := new Node(base_size);
      var unset: int := *;
      baseSize := base_size;
      this.host := host;
      position, capacity, size, endian := 0, base_size, 0, unset;
      root, cur := node, node;
      nodes, Repr := [node], {this, node, node.ptr};
      mem := node.ptr[..];
      where := map[node.ptr := 0];
    }

    method SetIsLittleEndian(val: bool)
      requires Valid()
      modifies this`endian
      ensures Valid() && State() == old(State()).(endian := if val then 1 else 2)
    {
      endian := if val then 1 else 2;
    }

    method Clear()
      requires Valid()
      modifies Repr
      ensures Valid() && Repr == old(Repr)
      ensures |old(mem)| >= baseSize
      ensures State() == Buffer(baseSize, old(mem)[..baseSize], 0, 0, old(endian))
    {
      assert Placed(nodes, mem, baseSize, 0);
      position, size := 0, 0;
      capacity := baseSize;
      cur := root;
      root.next := null;
      nodes, mem, where := [root], mem[..baseSize], map[root.ptr := 0];
      assert At(1, baseSize) == baseSize;
      assert Placed(nodes, mem, baseSize, 0);
    }

    /** One turn of the growing loop: a new chunk behind the last one. */
    method AppendChunk(tail: Node) returns (node: Node)
      requires ListOk() && tail == nodes[|nodes| - 1]
      modifies this`capacity, this`nodes, this`mem, this`where, this`Repr, tail
      ensures ListOk() && fresh(node) && nodes == old(nodes) + [node] && fresh(Repr - old(Repr))
      ensures |old(mem)| <= |mem| && mem[..|old(mem)|] == old(mem)
    {
      node := new Node(baseSize);
      tail.next := node;
      capacity := capacity + baseSize;
      nodes, mem, where := nodes + [node], mem + node.ptr[..], where[node.ptr := |nodes|];
      Repr := Repr + {node, node.ptr};
      forall i | 0 <= i < |nodes|
        ensures Placed(nodes, mem, baseSize, i)
      {
        assert i < |nodes| - 1 ==> old(Placed(nodes, mem, baseSize, i));
      }
    }

    method LastNode() returns (tmp: Node)
      requires ListOk()
      ensures tmp == nodes[|nodes| - 1]
    {
      tmp := root;
      ghost var t: nat := 0;
      while tmp.next != null
        invariant t < |nodes| && tmp == nodes[t]
        decreases |nodes| - t
      {
        assert Placed(nodes, mem, baseSize, t);
        tmp := tmp.next;
        t := t + 1;
      }
      assert Placed(nodes, mem, baseSize, t);
    }

    /** Appends `count` chunks and returns the first of them. */
    method AppendChunks(tail: Node, count: nat) returns (first: Node?)
      requires ListOk() && tail == nodes[|nodes| - 1]
      modifies this`capacity, this`nodes, this`mem, this`where, this`Repr, tail
      ensures ListOk() && fresh(Repr - old(Repr))
      ensures |nodes| == |old(nodes)| + count && nodes[..|old(nodes)|] == old(nodes)
      ensures first == if count == 0 then null else nodes[|old(nodes)|]
      ensures |old(mem)| <= |mem| && mem[..|old(mem)|] == old(mem)
    {
      var tmp := tail;
      first := null;
      var i := 0;
      while i < count
        invariant i <= count
        invariant ListOk() && fresh(Repr - old(Repr)) && (tmp == tail || fresh(tmp))
        invariant |nodes| == |old(nodes)| + i && tmp == nodes[|nodes| - 1]
        invariant nodes[..|old(nodes)|] == old(nodes)
        invariant first == if i == 0 then null else nodes[|old(nodes)|]
        invariant |old(mem)| <= |mem| && mem[..|old(mem)|] == old(mem)
      {
        ghost var m := mem;
        tmp := AppendChunk(tmp);
        if first == null {
          first := tmp;
        }
        i := i + 1;
        assert mem[..|old(mem)|] == m[..|old(mem)|];
      }
    }

    /** Appends whole chunks until `n` bytes fit behind the cursor. */
    method AddCapacity(n: nat)
      requires Valid()
      modifies Repr
      ensures Valid() && fresh(Repr - old(Repr))
      ensures position + n <= capacity
      ensures Grows(old(State()), old(position) + n, State())
    {
      hide At, Index, Grown, Placed;
      if n == 0 {
        assert mem[..capacity] == mem;
        return;
      }
      var oldCap := capacity - position;
      if oldCap >= n {
        assert mem[..capacity] == mem;
        return;
      }
      var count := CeilDiv(n - oldCap, baseSize);
      GrownByCount(capacity, baseSize, position + n);
      AtSum(|nodes|, count, baseSize);
      IndexWithin(position, baseSize, |nodes|);
      ghost var n0 := |nodes|;
      assert cur == if oldCap == 0 then null else nodes[Index(position, baseSize)];
      var tmp := LastNode();
      var first := AppendChunks(tmp, count);
      if oldCap == 0 {
        cur := first;
      }
      assert nodes[..n0] == old(nodes);
    }

    /** Copies into part of chunk q. */
    method CopyInto(ptr: array<byte>, ghost q: nat, npos: nat, d: seq<byte>)
      requires ListOk() && q < |nodes| && ptr == nodes[q].ptr && npos + |d| <= baseSize
      modifies ptr, this`mem
      ensures At(q, baseSize) + npos + |d| <= |old(mem)|
      ensures ListOk() && mem == Splice(old(mem), At(q, baseSize) + npos, d)
    {
      ghost var m0 := mem;
      assert Placed(nodes, m0, baseSize, q);
      Memcpy(ptr, npos, d);
      mem := Splice(m0, At(q, baseSize) + npos, d);
      forall i | 0 <= i < |nodes|
        ensures Placed(nodes, mem, baseSize, i)
      {
        assert old(Placed(nodes, m0, baseSize, i));
        if i != q {
          Apart(i, q, baseSize);
          assert where[nodes[i].ptr] != where[ptr];
        }
      }
    }

    /** Replaces the bytes at the cursor, across chunk boundaries, growing as needed. */
    method Write(data: seq<byte>)
      requires Valid()
      modifies Repr
      ensures Valid() && fresh(Repr - old(Repr))
      ensures old(State()).Sane() && Writes(old(State()), data, State())
    {
      hide At, Index, Grown, Placed, Splice;
      StateSane();
      if |data| == 0 {
        return;
      }
      AddCapacity(|data|);
      StateSane();
      ghost var g := State();
      WriteLoop(data);
      if position > size {
        size := position;
      }
      GrowThenSplice(old(State()), old(position) + |data|, g, data, State());
    }

    /** The chunk number of a position and the offset in that chunk. */
    method Locate(p: nat) returns (count: nat, npos: nat)
      requires baseSize >= 1
      ensures count == Index(p, baseSize) && npos < baseSize && p == At(count, baseSize) + npos
    {
      count, npos := p / baseSize, p % baseSize;
      IndexBounds(p, baseSize);
    }

    /** One turn of the copying loop: the piece goes into the cursor chunk. */
    method WritePiece(npos: nat, d: seq<byte>)
      requires ListOk() && cur == NodeAt(nodes, Index(position, baseSize)) && cur != null
      requires npos + |d| <= baseSize
      requires position == At(Index(position, baseSize), baseSize) + npos
      requires position + |d| <= capacity
      modifies this`position, this`cur, this`mem, cur.ptr
      ensures ListOk() && position == old(position) + |d|
      ensures cur == NodeAt(nodes, Index(position, baseSize))
      ensures npos + |d| == baseSize ==> position == At(Index(position, baseSize), baseSize)
      ensures mem == Splice(old(mem), old(position), d)
    {
      ghost var q := Index(position, baseSize);
      Advance(q, baseSize, npos, |d|);
      CopyInto(cur.ptr, q, npos, d);
      assert Placed(nodes, mem, baseSize, q);
      position := position + |d|;
      if cur.size == npos + |d| {
        cur := cur.next;
      }
    }

    /** The copying loop of write, once everything fits. */
    method WriteLoop(data: seq<byte>)
      requires Valid() && data != [] && position + |data| <= capacity
      modifies this`position, this`cur, this`mem, set n | n in nodes :: n.ptr
      ensures ListOk() && position == old(position) + |data|
      ensures cur == NodeAt(nodes, Index(position, baseSize))
      ensures mem == Splice(old(mem), old(position), data)
    {
      hide At, Index, Placed;
      ghost var m0, p0 := mem, position;
      IndexWithin(position, baseSize, |nodes|);
      var left: nat := |data|;
      var count, npos: nat := Locate(position);
      var ncap: nat := cur.size - npos;
      var bpos: nat := 0;
      assert Splice(m0, p0, data[..0]) == m0;
      while left > 0
        invariant bpos + left == |data|
        invariant ListOk() && position == p0 + bpos && cur == NodeAt(nodes, Index(position, baseSize))
        invariant left > 0 ==> cur != null && npos < baseSize && ncap == baseSize - npos
        invariant left > 0 ==> position == At(Index(position, baseSize), baseSize) + npos
        invariant mem == Splice(m0, p0, data[..bpos])
      {
        var n := if ncap >= left then left else ncap;
        SpliceNext(m0, p0, data[..bpos], data[bpos..bpos + n]);
        assert data[..bpos] + data[bpos..bpos + n] == data[..bpos + n];
        WritePiece(npos, data[bpos..bpos + n]);
        bpos := bpos + n;
        left := left - n;
        if left > 0 {
          IndexWithin(position, baseSize, |nodes|);
          ncap := cur.size;
          npos := 0;
        }
      }
      assert data[..bpos] == data;
    }

    /** Moves the cursor, walking the list from its root; refuses a position beyond the capacity. */
    method SetPosition(v: nat) returns (r: Outcome<()>)
      requires Valid()
      modifies this`position, this`size, this`cur
      ensures Valid()
      ensures v > capacity ==> r == OutOfRange && State() == old(State()) && cur == old(cur)
      ensures v <= capacity ==> r == Ok(()) && State() == Positioned(old(State()), v)
    {
      if v > capacity {
        return OutOfRange;
      }
      cur := Seek(v);
      position := v;
      if position > size {
        size := position;
      }
      return Ok(());
    }

    /** The walk from the root to the node that holds position v. */
    method Seek(v: nat) returns (node: Node?)
      requires ListOk() && v <= capacity
      ensures node == NodeAt(nodes, Index(v, baseSize))
    {
      node := root;
      var w: nat := v;
      ghost var i: nat := 0;
      while w > node.size
        invariant i < |nodes| && node == nodes[i] && w + At(i, baseSize) == v
        decreases w
      {
        assert Placed(nodes, mem, baseSize, i);
        NextExists(i, baseSize, |nodes|, w);
        w := w - node.size;
        node := node.next;
        i := i + 1;
      }
      assert Placed(nodes, mem, baseSize, i);
      Advance(i, baseSize, 0, w);
      if w == node.size {
        node := node.next;
      }
    }

    /** The bytes of chunk q from off on are those of the flat memory, and continue it from p. */
    lemma PieceOfMem(q: nat, off: nat, n: nat, p: nat)
      requires ListOk() && q < |nodes| && off + n <= baseSize && p <= At(q, baseSize) + off
      ensures nodes[q].next == NodeAt(nodes, q + 1) && At(q + 1, baseSize) == At(q, baseSize) + baseSize
      ensures At(q, baseSize) + off + n <= capacity
      ensures mem[p..At(q, baseSize) + off] + nodes[q].ptr[off..off + n] == mem[p..At(q, baseSize) + off + n]
    {
      var at := At(q, baseSize);
      assert Placed(nodes, mem, baseSize, q);
      assert nodes[q].ptr[off..off + n] == mem[at + off..at + off + n];
      SliceAppend(mem, p, at + off - p, n);
      AtNext(q, baseSize);
    }

    /**
     The copying loop of both reads, from offset npos of chunk q on. It returns the node it
     stops at, and dereferences null when the list ends before n bytes are copied.
     */
    method Gather(start: Node, ghost q: nat, npos: nat, n: nat)
      returns (r: Outcome<seq<byte>>, stop: Node?)
      requires ListOk() && q < |nodes| && start == nodes[q] && npos < baseSize
      ensures At(q, baseSize) + npos + n > capacity ==> r == NullCursor
      ensures At(q, baseSize) + npos + n <= capacity ==>
                && r == Ok(mem[At(q, baseSize) + npos..At(q, baseSize) + npos + n])
                && stop == NodeAt(nodes, Index(At(q, baseSize) + npos + n, baseSize))
    {
      hide At, Index, Placed;
      ghost var p0 := At(q, baseSize) + npos;
      var node, left: nat, off: nat, ncap: nat := start, n, npos, start.size - npos;
      ghost var k: nat := q;
      var out: seq<byte> := [];
      AtMonotone(q, |nodes|, baseSize);
      while ncap < left
        invariant |out| + left == n && p0 + |out| <= capacity && out == mem[p0..p0 + |out|]
        invariant k < |nodes| && node == nodes[k] && off < baseSize && ncap == baseSize - off
        invariant p0 + |out| == At(k, baseSize) + off
      {
        PieceOfMem(k, off, ncap, p0);
        out := out + node.ptr[off..off + ncap];
        left := left - ncap;
        if node.next == null {
          return NullCursor, null;
        }
        node := node.next;
        k := k + 1;
        ncap := node.size;
        off := 0;
      }
      PieceOfMem(k, off, left, p0);
      Advance(k, baseSize, off, left);
      out := out + node.ptr[off..off + left];
      stop := if node.size == off + left then node.next else node;
      return Ok(out), stop;
    }

    /** Takes n bytes at the cursor and moves it behind them. */
    method Read(n: nat) returns (r: Outcome<seq<byte>>)
      requires Valid()
      modifies this`position, this`cur
      ensures Valid()
      ensures r == ReadResult(old(State()), n)
      ensures State() == ReadState(old(State()), n)
    {
      StateSane();
      if n > size - position {
        return OutOfRange;
      }
      var count, npos := Locate(position);
      if cur == null {
        return NullCursor;
      }
      IndexWithin(position, baseSize, |nodes|);
      var stop;
      r, stop := Gather(cur, Index(position, baseSize), npos, n);
      position, cur := position + n, stop;
    }

    /** The read that takes a position: it starts from the cursor's chunk, whatever the position. */
    method ReadAt(n: nat, p: nat) returns (r: Outcome<seq<byte>>)
      requires Valid()
      ensures r == PositionalResult(State(), n, p)
    {
      StateSane();
      if n > ToSize(size - p) {
        return OutOfRange;
      }
      if cur == null {
        return NullCursor;
      }
      IndexWithin(position, baseSize, |nodes|);
      PositionalFromIs(State(), p);
      var count, npos := Locate(p);
      var stop;
      r, stop := Gather(cur, Index(position, baseSize), npos, n);
    }

    /** All readable bytes, without moving the cursor. */
    method ToString() returns (str: seq<byte>)
      requires Valid()
      requires size < SIZE_WORD
      ensures str == State().Readable()
    {
      StateSane();
      hide At, Index, Placed;
      var n := size - position;
      if n == 0 {
        return [];
      }
      var r := ReadAt(n, position);
      PositionalStart(State(), position);
      return r.value;
    }

    /** A region in chunk q continues the regions in front of it. */
    lemma ViewPiece(q: nat, off: nat, n: nat, iovs: seq<Iovec>, p: nat, len: nat)
      requires ListOk() && q < |nodes| && off < baseSize && 1 <= n <= baseSize - off
      requires p + len == At(q, baseSize) + off && ViewsAt(nodes, baseSize, iovs, p, len)
      ensures nodes[q].next == NodeAt(nodes, q + 1) && At(q + 1, baseSize) == At(q, baseSize) + baseSize
      ensures p + len + n <= capacity
      ensures ViewsAt(nodes, baseSize, iovs + [Iovec(nodes[q].ptr, off, n)], p, len + n)
    {
      assert Placed(nodes, mem, baseSize, q);
      IndexIs(q, off, baseSize);
      AtNext(q, baseSize);
      ViewsExtend(nodes, baseSize, iovs, p, len, Iovec(nodes[q].ptr, off, n));
    }

    /** The loop that cuts len bytes from offset npos of chunk q on into regions. */
    method CollectViews(start: Node, ghost q: nat, npos: nat, len: nat) returns (r: Outcome<seq<Iovec>>)
      requires ListOk() && q < |nodes| && start == nodes[q] && npos < baseSize && len > 0
      ensures At(q, baseSize) + npos + len > capacity ==> r == NullCursor
      ensures At(q, baseSize) + npos + len <= capacity ==>
                r.Ok? && ViewsAt(nodes, baseSize, r.value, At(q, baseSize) + npos, len)
    {
      hide At, Index, Placed;
      ghost var p0 := At(q, baseSize) + npos;
      var cur, left: nat, off: nat, ncap: nat := start, len, npos, start.size - npos;
      ghost var k: nat, done: nat := q, 0;
      var iovs: seq<Iovec> := [];
      while ncap < left
        invariant left > 0 && done + left == len
        invariant k < |nodes| && cur == nodes[k] && off < baseSize && ncap == baseSize - off
        invariant p0 + done == At(k, baseSize) + off
        invariant ViewsAt(nodes, baseSize, iovs, p0, done)
        decreases left
      {
        ViewPiece(k, off, ncap, iovs, p0, done);
        iovs := iovs + [Iovec(cur.ptr, off, ncap)];
        left := left - ncap;
        done := done + ncap;
        if cur.next == null {
          return NullCursor;
        }
        cur := cur.next;
        k := k + 1;
        ncap := cur.size;
        off := 0;
      }
      ViewPiece(k, off, left, iovs, p0, done);
      return Ok(iovs + [Iovec(cur.ptr, off, left)]);
    }

    /** Regions over the next bytes to read, at most len of them; the cursor stays. */
    method GetReadBuffers(len: nat) returns (n: nat, iovs: seq<Iovec>)
      requires Valid()
      ensures n == Min(len, size - position)
      ensures ViewsAt(nodes, baseSize, iovs, position, n)
    {
      n := if len > size - position then size - position else len;
      if n == 0 {
        return 0, [];
      }
      IndexWithin(position, baseSize, |nodes|);
      var count, npos := Locate(position);
      var r := CollectViews(cur, Index(position, baseSize), npos, n);
      iovs := r.value;
    }

    /** The overload that starts at position p; it walks the list from the root. */
    method GetReadBuffersAt(len: nat, p: nat) returns (r: Outcome<(nat, seq<Iovec>)>)
      requires Valid()
      ensures var n := Min(len, size - position);
              if n != 0 && p + n > capacity then r == NullCursor
              else r.Ok? && r.value.0 == n && (n == 0 ==> r.value.1 == [])
                   && (n != 0 ==> ViewsAt(nodes, baseSize, r.value.1, p, n))
    {
      var n := if len > size - position then size - position else len;
      if n == 0 {
        return Ok((0, []));
      }
      var count, npos := Locate(p);
      var node := NodeNumber(count);
      if node == null {
        AtMonotone(|nodes|, count, baseSize);
        return NullCursor;
      }
      var views := CollectViews(node, count, npos, n);
      if views.Ok? {
        return Ok((n, views.value));
      }
      return NullCursor;
    }

    /** The walk over count links; following a link of the last node ends at null. */
    method NodeNumber(count: nat) returns (node: Node?)
      requires ListOk()
      ensures node == NodeAt(nodes, count)
    {
      node := root;
      ghost var i: nat := 0;
      var left := count;
      while left > 0
        invariant i + left == count && i < |nodes| && node == nodes[i]
      {
        assert Placed(nodes, mem, baseSize, i);
        if node.next == null {
          return null;
        }
        node := node.next;
        left, i := left - 1, i + 1;
      }
    }

    /** Regions over the next len bytes of memory behind the cursor, which must fit first. */
    method GetWriteBuffers(len: nat) returns (n: nat, iovs: seq<Iovec>)
      requires Valid()
      modifies Repr
      ensures Valid() && fresh(Repr - old(Repr))
      ensures n == len && position + len <= capacity
      ensures Grows(old(State()), old(position) + len, State())
      ensures ViewsAt(nodes, baseSize, iovs, position, len)
    {
      if len == 0 {
        assert mem[..capacity] == mem;
        return 0, [];
      }
      AddCapacity(len);
      IndexWithin(position, baseSize, |nodes|);
      var count, npos := Locate(position);
      var r := CollectViews(cur, Index(position, baseSize), npos, len);
      return len, r.value;
    }

    /** A region lies inside its array and inside the memory. */
    lemma RegionInside(v: Iovec, at: nat)
      requires ListOk() && RegionAt(nodes, baseSize, v, at)
      ensures v.len >= 1 && v.off + v.len <= v.base.Length && v.base in Repr && at + v.len <= capacity
    {
      IndexInside(at, baseSize);
      AtMonotone(Index(at, baseSize), |nodes|, baseSize);
    }

    /** The bytes of a region continue those of the flat memory from p. */
    lemma RegionBytes(v: Iovec, at: nat, p: nat)
      requires ListOk() && RegionAt(nodes, baseSize, v, at) && p <= at
      ensures v.off + v.len <= v.base.Length && at + v.len <= capacity
      ensures mem[p..at] + v.base[v.off..v.off + v.len] == mem[p..at + v.len]
    {
      IndexInside(at, baseSize);
      PieceOfMem(Index(at, baseSize), v.off, v.len, p);
    }

    /** Regions lie inside their arrays and inside the memory. */
    lemma {:induction false} ViewsInside(iovs: seq<Iovec>, p: nat, len: nat)
      requires ListOk() && ViewsAt(nodes, baseSize, iovs, p, len)
      ensures forall v <- iovs :: v.off + v.len <= v.base.Length && v.base in Repr
      ensures iovs == [] || p + len <= capacity
      decreases |iovs|
    {
      if iovs != [] {
        var init, v := iovs[..|iovs| - 1], iovs[|iovs| - 1];
        RegionInside(v, p + len - v.len);
        ViewsInside(init, p, len - v.len);
        assert iovs == init + [v];
      }
    }

    /** The bytes of the regions are those of the flat memory. */
    lemma {:induction false} ViewBytesAre(iovs: seq<Iovec>, p: nat, len: nat)
      requires ListOk() && ViewsAt(nodes, baseSize, iovs, p, len) && p <= capacity
      requires forall v <- iovs :: v.off + v.len <= v.base.Length
      ensures p + len <= capacity && ViewBytes(iovs) == mem[p..p + len]
      decreases |iovs|
    {
      if iovs != [] {
        hide At, Index, Placed, RegionAt, NodeAt;
        var v := iovs[|iovs| - 1];
        ViewBytesAre(iovs[..|iovs| - 1], p, len - v.len);
        RegionBytes(v, p + len - v.len, p);
      }
    }
  }

  /** If more than chunk i is still to be skipped and all is within n chunks, there is a next one. */
  lemma NextExists(i: nat, b: nat, n: nat, w: nat)
    requires i < n && w > b && w + At(i, b) <= At(n, b)
    ensures i + 1 < n
  {
    AtNext(i, b);
  }

  /** Where the cursor is after n more bytes of chunk q. */
  lemma Advance(q: nat, b: nat, npos: nat, n: nat)
    requires b >= 1 && npos + n <= b
    ensures npos + n < b ==> Index(At(q, b) + npos + n, b) == q
    ensures npos + n == b ==> At(q, b) + npos + n == At(q + 1, b) && Index(At(q, b) + npos + n, b) == q + 1
  {
    if npos + n < b {
      IndexIs(q, npos + n, b);
    } else {
      AtNext(q, b);
      IndexIs(q + 1, 0, b);
    }
  }

}
