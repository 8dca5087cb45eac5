/**
 Socket streams over a byte array (sylar/socket_stream.cc) and the loops that repeat partial
 transfers (sylar/stream.cc). The socket transfers any positive number of bytes it can.
 */
module Streams {
  import opened Bits
  import opened FlatBuffer
  import opened Chunks
  import opened ByteArrays

  /** Both ends of a connection: what is still to arrive, and what has been sent. */
  class Socket {
    var connected: bool
    var incoming: seq<byte>
    var sent: seq<byte>

    /**
     A scattering receive into regions of len bytes in all: some of the incoming bytes, in
     order; 0 when the peer has closed or nothing is asked for.
     */
    method Recv(ba: ByteArray, iovs: seq<Iovec>, len: nat) returns (rt: nat)
      requires ba.Valid() && ViewsAt(ba.nodes, ba.baseSize, iovs, ba.position, len)
      modifies this`incoming, ba`mem, set v | v in iovs :: v.base
      ensures rt <= len && rt <= |old(incoming)| && (rt == 0 ==> old(incoming) == [] || len == 0)
      ensures incoming == old(incoming)[rt..]
      ensures ba.Valid() && ba.position + len <= |old(ba.mem)|
      ensures ba.mem == Splice(old(ba.mem), ba.position, old(incoming)[..rt])
    {
      rt := 0;
      if incoming != [] && len > 0 {
        rt :| 1 <= rt <= len && rt <= |incoming|;
      }
      Scatter(ba, iovs, len, incoming[..rt]);
      incoming := incoming[rt..];
    }

    /** A plain receive of at most len bytes; empty when the peer has closed. */
    method RecvBytes(len: nat) returns (bytes: seq<byte>)
      requires len > 0
      modifies this`incoming
      ensures |bytes| <= len && bytes + incoming == old(incoming)
      ensures bytes == [] ==> old(incoming) == []
    {
      var rt: nat := 0;
      if incoming != [] {
        rt :| 1 <= rt <= len && rt <= |incoming|;
      }
      bytes := incoming[..rt];
      incoming := incoming[rt..];
    }

    /** A plain send of some of the bytes. */
    method SendBytes(bytes: seq<byte>) returns (rt: nat)
      requires bytes != []
      modifies this`sent
      ensures 1 <= rt <= |bytes| && sent == old(sent) + bytes[..rt]
    {
      rt :| 1 <= rt <= |bytes|;
      sent := sent + bytes[..rt];
    }

    /** A gathering send: some prefix of the regions' bytes; 0 when there are none. */
    method Send(ba: ByteArray, iovs: seq<Iovec>, ghost len: nat) returns (rt: nat)
      requires ba.Valid() && ViewsAt(ba.nodes, ba.baseSize, iovs, ba.position, len)
      modifies this`sent
      ensures rt <= len && (rt == 0 ==> len == 0) && ba.position + len <= |ba.mem|
      ensures sent == old(sent) + ba.mem[ba.position..ba.position + rt]
    {
      var bytes := Gathered(ba, iovs, len);
      rt := 0;
      if bytes != [] {
        rt :| 1 <= rt <= |bytes|;
      }
      sent := sent + bytes[..rt];
    }
  }

  /** The bytes of the regions, in order: the next bytes of the flat memory. */
  method Gathered(ba: ByteArray, iovs: seq<Iovec>, ghost len: nat) returns (bytes: seq<byte>)
    requires ba.Valid() && ViewsAt(ba.nodes, ba.baseSize, iovs, ba.position, len)
    ensures ba.position + len <= |ba.mem| && bytes == ba.mem[ba.position..ba.position + len]
  {
    hide At, Index, Placed, RegionAt, NodeAt, ViewsAt;
    ba.ViewsInside(iovs, ba.position, len);
    ba.ViewBytesAre(iovs, ba.position, len);
    bytes := [];
    var j := 0;
    while j < |iovs|
      invariant j <= |iovs| && bytes == ViewBytes(iovs[..j])
    {
      assert iovs[..j + 1][..j] == iovs[..j];
      bytes := bytes + iovs[j].base[iovs[j].off..iovs[j].off + iovs[j].len];
      j := j + 1;
    }
    assert iovs[..|iovs|] == iovs;
  }

  /** Filling (part of) one region is a splice of the flat memory where the region lies. */
  method FillRegion(ba: ByteArray, v: Iovec, ghost at: nat, d: seq<byte>)
    requires ba.ListOk() && RegionAt(ba.nodes, ba.baseSize, v, at) && |d| <= v.len
    modifies ba`mem, v.base
    ensures at + |d| <= |old(ba.mem)|
    ensures ba.ListOk() && ba.mem == Splice(old(ba.mem), at, d)
  {
    IndexInside(at, ba.baseSize);
    ba.CopyInto(v.base, Index(at, ba.baseSize), v.off, d);
  }

  /** Filling the regions is, in the flat memory, one splice at the cursor. */
  method Scatter(ba: ByteArray, iovs: seq<Iovec>, len: nat, data: seq<byte>)
    requires ba.Valid() && ViewsAt(ba.nodes, ba.baseSize, iovs, ba.position, len)
    requires |data| <= len
    modifies ba`mem, set v | v in iovs :: v.base
    ensures ba.Valid() && ba.position + len <= |old(ba.mem)|
    ensures ba.mem == Splice(old(ba.mem), ba.position, data)
    decreases |iovs|
  {
    hide At, Index, Placed, RegionAt, NodeAt;
    ghost var p, m0 := ba.position, ba.mem;
    if iovs == [] {
      assert Splice(m0, p, data) == m0;
    } else {
      var v := iovs[|iovs| - 1];
      var k := len - v.len;
      ba.RegionInside(v, p + k);
      if |data| <= k {
        Scatter(ba, iovs[..|iovs| - 1], k, data);
      } else {
        Scatter(ba, iovs[..|iovs| - 1], k, data[..k]);
        FillRegion(ba, v, p + k, data[k..]);
        SpliceNext(m0, p, data[..k], data[k..]);
        assert data[..k] + data[k..] == data;
      }
    }
  }

  /** A partial receive from stream s: its next rt bytes are written, 0 only at the end of s. */
  ghost predicate Receives(b: Buffer, s: seq<byte>, need: nat, rt: nat, b': Buffer, s': seq<byte>)
    requires b.Sane()
  {
    && rt <= |s| && (rt == 0 ==> s == [])
    && s' == s[rt..]
    && WritesWithin(b, s[..rt], need, b')
  }

  /** After `done` bytes of stream s: untouched at first, then as after writing them. */
  ghost predicate Received(b: Buffer, s: seq<byte>, done: nat, need: nat, b': Buffer, s': seq<byte>)
    requires b.Sane()
  {
    && done <= |s| && s' == s[done..]
    && b'.Sane() && b'.pos == b.pos + done
    && if done == 0 then b' == b else WritesWithin(b, s[..done], need, b')
  }

  /** A further partial receive continues the write. */
  lemma ReceivedStep(b: Buffer, s: seq<byte>, done: nat, need: nat, b1: Buffer, s1: seq<byte>,
                     rt: nat, b2: Buffer, s2: seq<byte>)
    requires b.Sane() && Received(b, s, done, need, b1, s1) && Receives(b1, s1, need, rt, b2, s2)
    ensures Received(b, s, done + rt, need, b2, s2) || rt == 0
    ensures rt == 0 ==> done == |s| && s2 == [] && WritesWithin(b, s, need, b2)
  {
    assert s[..done] + s1[..rt] == s[..done + rt];
    assert done == |s| ==> s[..done] == s;
    if done > 0 {
      WithinCompose(b, s[..done], need, b1, s1[..rt], need, b2);
    }
  }

  class SocketStream {
    const socket: Socket

    constructor (socket: Socket)
      ensures this.socket == socket
    {
      this.socket := socket;
    }

    /**
     Receives through views of the array. Afterwards the array is as if the bytes received had
     been written, except that it has grown for all the bytes asked for.
     */
    method ReadInto(ba: ByteArray, length: nat) returns (rt: int)
      requires ba.Valid() && socket !in ba.Repr
      modifies socket`incoming, ba.Repr
      ensures ba.Valid() && fresh(ba.Repr - old(ba.Repr))
      ensures old(ba.State()).Sane()
      ensures !socket.connected ==> rt == -1 && ba.State() == old(ba.State()) && socket.incoming == old(socket.incoming)
      ensures socket.connected ==> 0 <= rt <= length
      ensures socket.connected && length == 0 ==> ba.State() == old(ba.State()) && socket.incoming == old(socket.incoming)
      ensures socket.connected && length > 0 ==>
                Receives(old(ba.State()), old(socket.incoming), old(ba.position) + length, rt, ba.State(), socket.incoming)
    {
      hide WritesWithin, Grown, Splice, ViewsAt;
      ba.StateSane();
      if !socket.connected {
        return -1;
      }
      var n, iovs := ba.GetWriteBuffers(length);
      ghost var g := ba.State();
      ba.ViewsInside(iovs, ba.position, length);
      rt := socket.Recv(ba, iovs, n);
      ghost var m := ba.mem;
      if rt > 0 {
        var r := ba.SetPosition(ba.position + rt);
      }
      assert length == 0 ==> Splice(g.mem, g.pos, []) == g.mem;
      GrowThenSplice(old(ba.State()), old(ba.position) + length, g, old(socket.incoming)[..rt], ba.State());
    }

    /** Sends through views of the array: some of the next bytes to read, which are then read. */
    method WriteFrom(ba: ByteArray, length: nat) returns (rt: int)
      requires ba.Valid()
      modifies socket`sent, ba`position, ba`size, ba`cur
      ensures ba.Valid() && old(ba.State()).Sane()
      ensures !socket.connected ==> rt == -1 && ba.State() == old(ba.State()) && socket.sent == old(socket.sent)
      ensures socket.connected ==> 0 <= rt <= Min(length, old(ba.size - ba.position))
      ensures rt == 0 ==> Min(length, old(ba.size - ba.position)) == 0
      ensures socket.connected ==> ba.State() == old(ba.State()).(pos := old(ba.position) + rt)
      ensures socket.connected ==> socket.sent == old(socket.sent) + old(ba.State()).Readable()[..rt]
    {
      ba.StateSane();
      if !socket.connected {
        return -1;
      }
      var n, iovs := ba.GetReadBuffers(length);
      rt := socket.Send(ba, iovs, n);
      assert ba.State().Readable()[..rt] == ba.mem[ba.position..ba.position + rt];
      if rt > 0 {
        var r := ba.SetPosition(ba.position + rt);
      }
    }

    /** A plain receive of at most length bytes. */
    method ReadBytes(length: nat) returns (rt: int, bytes: seq<byte>)
      requires length > 0
      modifies socket`incoming
      ensures !socket.connected ==> rt == -1 && bytes == [] && socket.incoming == old(socket.incoming)
      ensures socket.connected ==> rt == |bytes| <= length && bytes + socket.incoming == old(socket.incoming)
      ensures rt == 0 ==> old(socket.incoming) == []
    {
      if !socket.connected {
        return -1, [];
      }
      bytes := socket.RecvBytes(length);
      rt := |bytes|;
    }

    /** A plain send of some of the bytes. */
    method WriteBytes(bytes: seq<byte>) returns (rt: int)
      requires bytes != []
      modifies socket`sent
      ensures !socket.connected ==> rt == -1 && socket.sent == old(socket.sent)
      ensures socket.connected ==> 1 <= rt <= |bytes| && socket.sent == old(socket.sent) + bytes[..rt]
    {
      if !socket.connected {
        return -1;
      }
      rt := socket.SendBytes(bytes);
    }

    /** The loop over plain receives: the next `length` bytes of the stream, or 0 at its end. */
    method ReadFixBytes(length: nat) returns (r: nat, buffer: seq<byte>)
      requires length < SIZE_WORD
      modifies socket`incoming
      ensures !socket.connected ==> r == length && buffer == [] && socket.incoming == old(socket.incoming)
      ensures socket.connected && length <= |old(socket.incoming)| ==>
                r == length && buffer == old(socket.incoming)[..length] && socket.incoming == old(socket.incoming)[length..]
      ensures socket.connected && length > |old(socket.incoming)| ==> r == 0 && socket.incoming == []
    {
      hide ToSize;
      var left: nat := length;
      buffer := [];
      while left > 0
        invariant left < SIZE_WORD && buffer + socket.incoming == old(socket.incoming)
        invariant if socket.connected then |buffer| + left == length else buffer == []
        decreases Rounds(left, socket.connected)
      {
        var rt, bytes := ReadBytes(left);
        buffer := buffer + bytes;
        LeftAfter(left, rt);
        var len := ToSize(rt);
        if len <= 0 {
          return 0, buffer;
        }
        left := ToSize(left - len);
      }
      return length, buffer;
    }

    /** The loop over plain sends: all the bytes, in order. */
    method WriteFixBytes(bytes: seq<byte>) returns (r: nat)
      requires |bytes| < SIZE_WORD
      modifies socket`sent
      ensures r == |bytes|
      ensures socket.sent == if socket.connected then old(socket.sent) + bytes else old(socket.sent)
    {
      hide ToSize;
      var offset, left: nat := 0, |bytes|;
      while left > 0
        invariant left < SIZE_WORD && offset <= |bytes| && socket.sent == old(socket.sent) + bytes[..offset]
        invariant if socket.connected then offset + left == |bytes| else offset == 0 && (left > 0 ==> bytes != [])
        decreases Rounds(left, socket.connected)
      {
        var rt := WriteBytes(bytes[offset..]);
        LeftAfter(left, rt);
        var len := ToSize(rt);
        if socket.connected {
          assert bytes[..offset] + bytes[offset..][..len] == bytes[..offset + len];
          offset := offset + len;
        }
        left := ToSize(left - len);
      }
      return |bytes|;
    }

    /**
     Repeats partial receives until `length` bytes have arrived. Whatever the partial counts,
     the array ends up as after one write of exactly the next `length` bytes of the stream.
     */
    method ReadFixSize(ba: ByteArray, length: nat) returns (r: nat)
      requires ba.Valid() && socket !in ba.Repr && length < SIZE_WORD
      modifies socket`incoming, ba.Repr
      ensures ba.Valid() && fresh(ba.Repr - old(ba.Repr)) && old(ba.State()).Sane()
      ensures !socket.connected ==> r == length && ba.State() == old(ba.State()) && socket.incoming == old(socket.incoming)
      ensures socket.connected && length <= |old(socket.incoming)| ==>
                && r == length
                && Writes(old(ba.State()), old(socket.incoming)[..length], ba.State())
                && socket.incoming == old(socket.incoming)[length..]
      ensures socket.connected && length > |old(socket.incoming)| ==>
                && r == 0
                && WritesWithin(old(ba.State()), old(socket.incoming), old(ba.position) + length, ba.State())
                && socket.incoming == []
    {
      hide WritesWithin, Grown, ToSize;
      ba.StateSane();
      ghost var b0, s0, need := ba.State(), socket.incoming, ba.position + length;
      if length == 0 {
        WritesNothing(b0);
        return 0;
      }
      var left: nat := length;
      ghost var done: nat := 0;
      while left > 0
        invariant left < SIZE_WORD
        invariant ba.Valid() && fresh(ba.Repr - old(ba.Repr)) && socket !in ba.Repr
        invariant if socket.connected then done + left == length else done == 0
        invariant Received(b0, s0, done, need, ba.State(), socket.incoming)
        decreases Rounds(left, socket.connected)
      {
        ghost var b1, s1 := ba.State(), socket.incoming;
        var rt := ReadInto(ba, left);
        LeftAfter(left, rt);
        var len := ToSize(rt);
        if socket.connected {
          ReceivedStep(b0, s0, done, need, b1, s1, len, ba.State(), socket.incoming);
          done := done + len;
        }
        if len <= 0 {
          return 0;
        }
        left := ToSize(left - len);
      }
      return length;
    }

    /** Repeats partial sends until `length` bytes are out, or no more can be read. */
    method WriteFixSize(ba: ByteArray, length: nat) returns (r: nat)
      requires ba.Valid() && length < SIZE_WORD
      modifies socket`sent, ba`position, ba`size, ba`cur
      ensures ba.Valid() && old(ba.State()).Sane()
      ensures !socket.connected ==> r == length && ba.State() == old(ba.State()) && socket.sent == old(socket.sent)
      ensures socket.connected ==>
                && (r == if length <= old(ba.size - ba.position) then length else 0)
                && var n := Min(length, old(ba.size - ba.position));
                && ba.State() == old(ba.State()).(pos := old(ba.position) + n)
                && socket.sent == old(socket.sent) + old(ba.State()).Readable()[..n]
    {
      hide ToSize;
      ba.StateSane();
      ghost var b0 := ba.State();
      var left: nat := length;
      ghost var done: nat := 0;
      while left > 0
        invariant left < SIZE_WORD && done <= b0.size - b0.pos
        invariant if socket.connected then done + left == length else done == 0
        invariant ba.Valid() && ba.State() == b0.(pos := b0.pos + done)
        invariant socket.sent == old(socket.sent) + b0.Readable()[..done]
        decreases Rounds(left, socket.connected)
      {
        ghost var rest := ba.State().Readable();
        var rt := WriteFrom(ba, left);
        LeftAfter(left, rt);
        var len := ToSize(rt);
        if socket.connected {
          assert b0.Readable()[..done] + rest[..len] == b0.Readable()[..done + len];
          done := done + len;
        }
        if len <= 0 {
          return 0;
        }
        left := ToSize(left - len);
      }
      return length;
    }
  }

  /** How many more rounds a loop makes: on a closed socket `left` grows until it wraps. */
  function Rounds(left: nat, connected: bool): int {
    if connected || left == 0 then left else SIZE_WORD - left
  }

  /** A size_t that an int result is stored in and subtracted from: -1 adds one. */
  lemma LeftAfter(left: nat, rt: int)
    requires 0 < left < SIZE_WORD && -1 <= rt <= left
    ensures rt >= 0 ==> ToSize(rt) == rt && ToSize(left - rt) == left - rt
    ensures rt == -1 ==> ToSize(rt) == SIZE_WORD - 1 > 0
    ensures rt == -1 ==> ToSize(left - ToSize(rt)) == if left + 1 == SIZE_WORD then 0 else left + 1
  {
  }
}
