/**
 What a chunked byte array means: one flat memory with a cursor.

 `Buffer` is the abstract state and the relations below are the abstract operations. Memory
 that has been allocated but not written holds arbitrary bytes, as in the source, which is why
 growing is a relation and not a function.
 */
module FlatBuffer {
  import opened Bits

  datatype Outcome<+T> =
    | Ok(value: T)
    | OutOfRange   // std::out_of_range is thrown
    | NullCursor   // the chunk pointer is dereferenced while it is null

  /** base: bytes per chunk; mem: all allocated bytes, so |mem| is the capacity. */
  datatype Buffer = Buffer(base: nat, mem: seq<byte>, pos: nat, size: nat, endian: int) {
    ghost predicate Sane() {
      && base >= 1
      && pos <= size <= |mem|
    }

    /** The bytes a reader can still take. */
    ghost function Readable(): seq<byte>
      requires Sane()
    {
      mem[pos..size]
    }
  }

  function Max(a: nat, b: nat): nat { if a < b then b else a }

  function Min(a: nat, b: nat): nat { if a < b then a else b }

  /** The capacity once `need` bytes must fit: chunks are added one by one until they do. */
  function Grown(capacity: nat, base: nat, need: nat): (r: nat)
    requires base >= 1
    ensures capacity <= r && need <= r
    ensures need <= capacity ==> r == capacity
    ensures need > capacity ==> r < need + base
    decreases need - capacity
  {
    if need <= capacity then capacity else Grown(capacity + base, base, need)
  }

  /** m with the bytes at p replaced by d. */
  function Splice(m: seq<byte>, p: nat, d: seq<byte>): (r: seq<byte>)
    requires p + |d| <= |m|
    ensures |r| == |m|
    ensures forall k :: 0 <= k < |m| ==> r[k] == if p <= k < p + |d| then d[k - p] else m[k]
  {
    seq(|m|, k requires 0 <= k < |m| => if p <= k < p + |d| then d[k - p] else m[k])
  }

  /** The memory grows to hold `need` bytes; nothing else changes. */
  ghost predicate Grows(b: Buffer, need: nat, b': Buffer)
    requires b.base >= 1
  {
    && |b.mem| <= |b'.mem|
    && b' == b.(mem := b'.mem)
    && b'.mem[..|b.mem|] == b.mem
    && |b'.mem| == Grown(|b.mem|, b.base, need)
  }

  /**
   `data` replaces the bytes at the cursor, which moves behind it; all other bytes stay. The
   memory has grown to hold `need` bytes.
   */
  ghost predicate WritesWithin(b: Buffer, data: seq<byte>, need: nat, b': Buffer)
    requires b.Sane()
  {
    && b'.Sane()
    && b'.base == b.base && b'.endian == b.endian
    && b'.pos == b.pos + |data|
    && b'.size == Max(b.size, b.pos + |data|)
    && |b'.mem| == Grown(|b.mem|, b.base, need)
    && (forall k :: 0 <= k < Max(|b.mem|, b'.pos) ==>
          b'.mem[k] == if b.pos <= k < b'.pos then data[k - b.pos] else b.mem[k])
  }

  /** A write grows the memory by what it needs itself. */
  ghost predicate Writes(b: Buffer, data: seq<byte>, b': Buffer)
    requires b.Sane()
  {
    WritesWithin(b, data, b.pos + |data|, b')
  }

  /** The cursor is put at p; a cursor beyond the size extends the size to it. */
  function Positioned(b: Buffer, p: nat): Buffer {
    b.(pos := p, size := Max(b.size, p))
  }

  /** What reading n bytes returns. Reading at the very end of the memory hits a null chunk. */
  ghost function ReadResult(b: Buffer, n: nat): Outcome<seq<byte>>
    requires b.Sane()
  {
    if n > b.size - b.pos then OutOfRange
    else if b.pos == |b.mem| then NullCursor
    else Ok(b.mem[b.pos..b.pos + n])
  }

  /** A read that succeeds moves the cursor behind the bytes; one that fails changes nothing. */
  ghost function ReadState(b: Buffer, n: nat): Buffer
    requires b.Sane()
  {
    if ReadResult(b, n).Ok? then b.(pos := b.pos + n) else b
  }

  /**
   A read takes the next bytes and moves behind them, or fails and changes nothing: it is
   refused exactly when there are too few bytes, and meets the null chunk exactly when nothing
   is asked for at the very end of the memory.
   */
  lemma ReadMeans(b: Buffer, n: nat)
    requires b.Sane()
    ensures ReadResult(b, n) == OutOfRange <==> n > |b.Readable()|
    ensures ReadResult(b, n) == NullCursor <==> n == 0 && b.pos == |b.mem|
    ensures ReadResult(b, n).Ok? ==> ReadResult(b, n).value + ReadState(b, n).Readable() == b.Readable()
    ensures ReadResult(b, n).Ok? ==> |ReadResult(b, n).value| == n && ReadState(b, n) == b.(pos := b.pos + n)
    ensures !ReadResult(b, n).Ok? ==> ReadState(b, n) == b
  {
    if ReadResult(b, n).Ok? {
      assert b.mem[b.pos..b.pos + n] + b.mem[b.pos + n..b.size] == b.mem[b.pos..b.size];
    }
  }

  /** Where the positional read starts: the chunk of the cursor, the offset of p. */
  function PositionalFrom(b: Buffer, p: nat): nat
    requires b.base >= 1
  {
    StartIn(b.pos, b.base, p)
  }

  function StartIn(pos: nat, base: nat, p: nat): nat
    requires base >= 1
  {
    pos - pos % base + p % base
  }

  ghost function PositionalResult(b: Buffer, n: nat, p: nat): Outcome<seq<byte>>
    requires b.Sane()
  {
    if n > ToSize(b.size - p) then OutOfRange
    else if b.pos == |b.mem| || PositionalFrom(b, p) + n > |b.mem| then NullCursor
    else Ok(b.mem[PositionalFrom(b, p)..PositionalFrom(b, p) + n])
  }

  /** The positional read looks at position p exactly when p lies in the cursor's chunk. */
  lemma PositionalStart(b: Buffer, p: nat)
    requires b.base >= 1
    ensures PositionalFrom(b, p) == p <==> p / b.base == b.pos / b.base
  {
    var q, q' := p / b.base, b.pos / b.base;
    assert p == q * b.base + p % b.base && b.pos == q' * b.base + b.pos % b.base;
    if q < q' {
      MulGap(q', q, b.base);
    } else if q' < q {
      MulGap(q, q', b.base);
    }
  }

  /** What a positional read is for: n bytes from position p, refused beyond the size. */
  ghost function PositionalIdeal(b: Buffer, n: nat, p: nat): Outcome<seq<byte>>
    requires b.Sane()
  {
    if p + n > b.size then OutOfRange else Ok(b.mem[p..p + n])
  }

  /** It does that whatever the memory holds. */
  ghost predicate PositionalRight(b: Buffer, n: nat, p: nat)
    requires b.Sane()
  {
    forall mem: seq<byte> | |mem| == |b.mem| ::
      PositionalResult(b.(mem := mem), n, p) == PositionalIdeal(b.(mem := mem), n, p)
  }

  /** The chunk of the cursor lies within the memory. */
  lemma ChunkInside(pos: nat, base: nat, capacity: nat)
    requires base >= 1 && pos < capacity && capacity % base == 0
    ensures pos - pos % base + base <= capacity
  {
    var q, c := pos / base, capacity / base;
    assert pos == q * base + pos % base && capacity == c * base;
    if c <= q {
      if c < q { MulGap(q, c, base); }
      assert false;
    }
    MulGap(c, q, base);
  }

  /** A memory of n bytes that holds 1 at position k and 0 elsewhere. */
  function OneAt(n: nat, k: nat): (m: seq<byte>)
    ensures |m| == n
    ensures forall i :: 0 <= i < n ==> m[i] == if i == k then 1 else 0
  {
    if n == 0 then [] else OneAt(n - 1, k) + [if k == n - 1 then 1 else 0]
  }

  /** The unsigned test refuses, or there is a right place to read from. */
  ghost predicate PositionalGuard(b: Buffer, n: nat, p: nat)
    requires b.Sane()
  {
    n > ToSize(b.size - p) || (p <= b.size && b.pos < |b.mem| && (n == 0 || PositionalFrom(b, p) == p))
  }

  lemma PositionalGuarded(b: Buffer, n: nat, p: nat)
    requires b.Sane() && b.size < SIZE_WORD && PositionalGuard(b, n, p)
    requires b.pos < |b.mem| ==> PositionalFrom(b, p) < |b.mem|
    ensures PositionalResult(b, n, p) == PositionalIdeal(b, n, p)
  {
    hide PositionalFrom;
    if n <= ToSize(b.size - p) && n == 0 {
      assert b.mem[p..p] == [] == b.mem[PositionalFrom(b, p)..PositionalFrom(b, p)];
    }
  }

  /** Otherwise a memory that differs at p alone shows the difference. */
  lemma PositionalUnguarded(b: Buffer, n: nat, p: nat)
    requires b.Sane() && b.size < SIZE_WORD && !PositionalGuard(b, n, p) && b.mem == OneAt(|b.mem|, p)
    ensures PositionalResult(b, n, p) != PositionalIdeal(b, n, p)
  {
    hide PositionalFrom;
    if p <= b.size && b.pos < |b.mem| {
      assert b.mem[p..p + n][0] == 1;
    }
  }

  lemma PositionalCases(b: Buffer, n: nat, p: nat)
    requires b.Sane() && b.size < SIZE_WORD
    requires b.pos < |b.mem| ==> PositionalFrom(b, p) < |b.mem|
    ensures PositionalRight(b, n, p) <==> PositionalGuard(b, n, p)
  {
    hide ToSize, PositionalResult, PositionalIdeal, StartIn;
    if PositionalGuard(b, n, p) {
      forall mem: seq<byte> | |mem| == |b.mem|
        ensures PositionalResult(b.(mem := mem), n, p) == PositionalIdeal(b.(mem := mem), n, p)
      {
        PositionalGuarded(b.(mem := mem), n, p);
      }
    } else {
      PositionalUnguarded(b.(mem := OneAt(|b.mem|, p)), n, p);
    }
  }

  /**
   The positional read is right, for every content of the memory, exactly when the unsigned
   size test refuses it, or the position is within the size, the cursor is not at the end, and
   there is nothing to read or the position lies in the cursor's chunk.
   */
  lemma PositionalExactly(b: Buffer, n: nat, p: nat)
    requires b.Sane() && b.size < SIZE_WORD && |b.mem| % b.base == 0
    ensures PositionalRight(b, n, p) <==>
            n > ToSize(b.size - p)
            || (p <= b.size && b.pos < |b.mem| && (n == 0 || p / b.base == b.pos / b.base))
  {
    if b.pos < |b.mem| {
      ChunkInside(b.pos, b.base, |b.mem|);
    }
    PositionalStart(b, p);
    PositionalCases(b, n, p);
  }

  /** With the cursor in another chunk the bytes of that chunk are returned. */
  lemma WrongChunk()
    ensures PositionalResult(Buffer(2, [1, 2, 3, 4], 0, 4, 1), 1, 2) == Ok([1])
    ensures PositionalIdeal(Buffer(2, [1, 2, 3, 4], 0, 4, 1), 1, 2) == Ok([3])
  {
    var m: seq<byte> := [1, 2, 3, 4];
    assert m[0..1] == [1] && m[2..3] == [3];
  }

  /** A position beyond the size, where the unsigned difference wraps, is not refused. */
  lemma BeyondSize()
    ensures PositionalResult(Buffer(4, [9, 9, 8, 7], 0, 1, 1), 2, 2) == Ok([8, 7])
    ensures PositionalIdeal(Buffer(4, [9, 9, 8, 7], 0, 1, 1), 2, 2) == OutOfRange
  {
    var m: seq<byte> := [9, 9, 8, 7];
    assert m[2..4] == [8, 7];
  }

  /** Growing in two steps gives the capacity of the larger step. */
  lemma {:induction false} GrownTwice(capacity: nat, base: nat, need: nat, need': nat)
    requires base >= 1 && need <= need'
    ensures Grown(Grown(capacity, base, need), base, need') == Grown(capacity, base, need')
    decreases need - capacity
  {
    if need > capacity {
      GrownTwice(capacity + base, base, need, need');
    }
  }

  /** Writing in two pieces is writing once, for any growth that covers both. */
  lemma WithinCompose(b: Buffer, d1: seq<byte>, need1: nat, b1: Buffer, d2: seq<byte>, need2: nat, b2: Buffer)
    requires b.Sane() && need1 <= need2
    requires WritesWithin(b, d1, need1, b1) && WritesWithin(b1, d2, need2, b2)
    ensures WritesWithin(b, d1 + d2, need2, b2)
  {
    GrownTwice(|b.mem|, b.base, need1, need2);
  }

  /** Writing in two pieces is writing once: the piecewise codecs write one byte string. */
  lemma WritesCompose(b: Buffer, d1: seq<byte>, b1: Buffer, d2: seq<byte>, b2: Buffer)
    requires b.Sane() && Writes(b, d1, b1) && Writes(b1, d2, b2)
    ensures Writes(b, d1 + d2, b2)
  {
    WithinCompose(b, d1, b.pos + |d1|, b1, d2, b1.pos + |d2|, b2);
  }

  /** Seen as slices: the data at the old cursor, and everything in front of it unchanged. */
  lemma WritesSlices(b: Buffer, data: seq<byte>, b': Buffer)
    requires b.Sane() && Writes(b, data, b')
    ensures b'.mem[b.pos..b'.pos] == data
    ensures b'.mem[..b.pos] == b.mem[..b.pos]
  {
  }

  lemma WritesNothing(b: Buffer)
    requires b.Sane()
    ensures Writes(b, [], b)
  {
  }

  /** Growing and then overwriting in place is a write within that growth. */
  lemma GrowThenSplice(b: Buffer, need: nat, g: Buffer, data: seq<byte>, b': Buffer)
    requires b.Sane() && Grows(b, need, g)
    requires b.pos + |data| <= need
    requires b' == Positioned(g, b.pos + |data|).(mem := Splice(g.mem, b.pos, data))
    ensures WritesWithin(b, data, need, b')
  {
    forall k | 0 <= k < |b.mem|
      ensures g.mem[k] == b.mem[k]
    {
      assert g.mem[..|b.mem|][k] == b.mem[k];
    }
  }
}

/**
 Where the chunks of a flat memory lie, and what writing does to a slice of it.
 */
module Chunks {
  import opened Bits
  import opened FlatBuffer

  /** Where chunk q begins: q * b, kept free of multiplication. */
  function At(q: nat, b: nat): nat {
    if q == 0 then 0 else At(q - 1, b) + b
  }

  /** The number of the chunk that holds position p. */
  function Index(p: nat, b: nat): nat
    requires b >= 1
  {
    if p < b then 0 else 1 + Index(p - b, b)
  }

  lemma {:induction false} AtIsProduct(q: nat, b: nat)
    ensures At(q, b) == q * b
  {
    if q != 0 {
      AtIsProduct(q - 1, b);
      assert q * b == (q - 1) * b + b;
    }
  }

  lemma {:induction false} AtMonotone(q: nat, r: nat, b: nat)
    requires q <= r
    ensures At(q, b) <= At(r, b)
    ensures q < r ==> At(q, b) + b <= At(r, b)
    decreases r
  {
    if q < r {
      AtMonotone(q, r - 1, b);
    }
  }

  lemma {:induction false} AtNext(q: nat, b: nat)
    ensures At(q + 1, b) == At(q, b) + b
    ensures q >= 1 ==> At(q, b) == At(q - 1, b) + b
  {
  }

  lemma {:induction false} AtSum(q: nat, r: nat, b: nat)
    ensures At(q + r, b) == At(q, b) + At(r, b)
    decreases r
  {
    if r != 0 {
      AtSum(q, r - 1, b);
      assert q + r - 1 == q + (r - 1);
    }
  }

  /** Offset r of chunk q is a position in chunk q. */
  lemma {:induction false} IndexIs(q: nat, r: nat, b: nat)
    requires b >= 1 && r < b
    ensures Index(At(q, b) + r, b) == q
    decreases q
  {
    if q != 0 {
      IndexIs(q - 1, r, b);
    }
  }

  /** Chunk number and offset are the quotient and the remainder. */
  lemma IndexBounds(p: nat, b: nat)
    requires b >= 1
    ensures At(Index(p, b), b) <= p < At(Index(p, b), b) + b
    ensures Index(p, b) == p / b && p - At(Index(p, b), b) == p % b
  {
    IndexInside(p, b);
    AtIsProduct(Index(p, b), b);
    DivModUnique(p, b, Index(p, b), p - At(Index(p, b), b));
  }

  lemma {:induction false} IndexInside(p: nat, b: nat)
    requires b >= 1
    ensures At(Index(p, b), b) <= p < At(Index(p, b), b) + b
    decreases p
  {
    if p >= b {
      IndexInside(p - b, b);
      AtNext(Index(p - b, b), b);
    }
  }

  /** A position within n chunks lies in one of them, or at the end of the last. */
  lemma IndexWithin(p: nat, b: nat, n: nat)
    requires b >= 1 && p <= At(n, b)
    ensures Index(p, b) <= n
    ensures Index(p, b) == n <==> p == At(n, b)
  {
    IndexInside(p, b);
    if Index(p, b) > n {
      AtMonotone(n, Index(p, b), b);
    } else if Index(p, b) < n {
      AtMonotone(Index(p, b), n, b);
    }
  }

  lemma SliceAppend(m: seq<byte>, p: nat, k: nat, n: nat)
    requires p + k + n <= |m|
    ensures m[p..p + k] + m[p + k..p + k + n] == m[p..p + k + n]
  {
  }

  /** Different chunks do not overlap. */
  lemma Apart(i: nat, q: nat, b: nat)
    requires i != q
    ensures At(i, b) + b <= At(q, b) || At(q, b) + b <= At(i, b)
  {
    if i < q {
      AtMonotone(i, q, b);
    } else {
      AtMonotone(q, i, b);
    }
  }

  /** Writing the next piece right behind the pieces already written. */
  lemma SpliceNext(m: seq<byte>, p: nat, done: seq<byte>, d: seq<byte>)
    requires p + |done| + |d| <= |m|
    ensures Splice(Splice(m, p, done), p + |done|, d) == Splice(m, p, done + d)
  {
  }

  /** The start of the positional read, by chunks. */
  lemma PositionalFromIs(b: Buffer, p: nat)
    requires b.base >= 1
    ensures PositionalFrom(b, p) == At(Index(b.pos, b.base), b.base) + (p - At(Index(p, b.base), b.base))
  {
    IndexBounds(b.pos, b.base);
    IndexBounds(p, b.base);
  }

  function CeilDiv(a: nat, b: nat): nat
    requires b >= 1
  {
    (a + b - 1) / b
  }

  /** The number of chunks the source computes at once is the number added one by one. */
  lemma GrownByCount(capacity: nat, b: nat, need: nat)
    requires b >= 1 && need > capacity
    ensures capacity + At(CeilDiv(need - capacity, b), b) == Grown(capacity, b, need)
  {
    GrownByIndex(capacity, b, need);
    IndexBounds(need - capacity + b - 1, b);
  }

  lemma {:induction false} GrownByIndex(capacity: nat, b: nat, need: nat)
    requires b >= 1 && need > capacity
    ensures capacity + At(Index(need - capacity + b - 1, b), b) == Grown(capacity, b, need)
    decreases need - capacity
  {
    var n := need - capacity;
    assert Index(n + b - 1, b) == 1 + Index(n - 1, b);
    if n > b {
      GrownByIndex(capacity + b, b, need);
      AtNext(Index(n - 1, b), b);
    } else {
      assert At(1, b) == b;
    }
  }
}
