/**
  RingBuf and BatchWriter as the code has them: a byte array, two wrapped 64-bit
  cursors, two-segment copies.

  `stream` is every byte ever published and `consumed` how many of them have been
  consumed; the cursors are these two numbers modulo 2^64. So each contract below
  is a statement about an unbounded FIFO, whatever the wraps of array and cursors.
 */
module RingBuffers {
  import opened RingMath
  import opened Memory

  /** An int that has been counted up to `n` from 0, overflow wrapping around. */
  function Int32(n: nat): int { if n % TWO_32 < TWO_31 then n % TWO_32 else n % TWO_32 - TWO_32 }

  /** `++` on an int, overflow wrapping around. */
  function Inc32(x: int): int { if x == TWO_31 - 1 then -TWO_31 else x + 1 }

  lemma IncExact(n: nat)
    ensures Inc32(Int32(n)) == Int32(n + 1)
  {
    var m := n % TWO_32;
    DivModUnique(n + 1, TWO_32, if m == TWO_32 - 1 then n / TWO_32 + 1 else n / TWO_32,
                 if m == TWO_32 - 1 then 0 else m + 1);
  }

  /** A `const void *` argument. */
  datatype Source = Null | Bytes(bytes: seq<byte>)

  class RingBuf {
    const cap: nat
    const data: array<byte>
    var writePos: u64
    var readPos: u64
    ghost var stream: seq<byte>
    ghost var consumed: nat

    ghost predicate Valid()
      reads this, data
    {
      && ValidCapacity(cap) && data.Length == cap
      && consumed <= |stream| <= consumed + cap
      && writePos == Wrap64(|stream|) && readPos == Wrap64(consumed)
      && forall p :: consumed <= p < |stream| ==> data[CellOf(cap, p)] == stream[p]
    }

    /** The cells from position `pos` on hold `bytes`. */
    ghost predicate Holds(pos: nat, bytes: seq<byte>)
      requires data.Length == cap > 0
      reads this, data
    {
      forall p :: pos <= p < pos + |bytes| ==> data[CellOf(cap, p)] == bytes[p - pos]
    }

    /** The bytes published and not yet consumed. */
    ghost function Contents(): seq<byte>
      requires consumed <= |stream|
      reads this
    {
      stream[consumed..]
    }

    constructor (cap: nat)
      requires ValidCapacity(cap)
      ensures Valid() && this.cap == cap && stream == [] && consumed == 0 && fresh(data)
    {
      this.cap := cap;
      data := new byte[cap](_ => 0);
      writePos, readPos := 0, 0;
      stream, consumed := [], 0;
    }

    /** The two-segment copy of TryWrite, into the cells from `pos` on. */
    method CopyIn(ghost pos: nat, phys: nat, src: seq<byte>)
      requires data.Length == cap > 0 && phys == CellOf(cap, pos) && |src| <= cap
      modifies data
      ensures Holds(pos, src)
      ensures forall p: nat :: pos + |src| <= p + cap && p < pos ==> data[CellOf(cap, p)] == old(data[CellOf(cap, p)])
    {
      var tail := cap - phys;
      if |src| <= tail {
        MemCopy(data, phys, src);
      } else {
        MemCopy(data, phys, src[..tail]);
        MemCopy(data, 0, src[tail..]);
      }
      forall p | pos <= p < pos + |src|
        ensures data[CellOf(cap, p)] == src[p - pos]
      {
        var k := p - pos;
        CellOffset(cap, pos, k);
        if k < tail {
          assert data[phys + k] == src[k];
        } else {
          assert data[0 + (k - tail)] == src[tail..][k - tail];
        }
      }
      forall p: nat | pos + |src| <= p + cap && p < pos
        ensures data[CellOf(cap, p)] == old(data[CellOf(cap, p)])
      {
        OtherCell(cap, pos, |src|, p);
      }
    }

    /** The two-segment copy of TryRead and ReadExact. */
    method RingCopyOut(ghost pos: nat, phys: nat, dst: array<byte>, len: nat, ghost bytes: seq<byte>)
      requires data.Length == cap > 0 && phys == CellOf(cap, pos) && len <= cap && len <= dst.Length
      requires dst != data && |bytes| == len && Holds(pos, bytes)
      modifies dst
      ensures dst[..len] == bytes
      ensures dst[len..] == old(dst[len..])
    {
      var contig := cap - phys;
      if len <= contig {
        MemCopy(dst, 0, data[phys..phys + len]);
      } else {
        MemCopy(dst, 0, data[phys..]);
        MemCopy(dst, contig, data[..len - contig]);
      }
      forall k | 0 <= k < len
        ensures dst[k] == bytes[k]
      {
        CellOffset(cap, pos, k);
        assert data[CellOf(cap, pos + k)] == bytes[(pos + k) - pos];
        assert k >= contig ==> dst[contig + (k - contig)] == data[..len - contig][k - contig];
      }
    }

    method TryWrite(src: Source, len: u32) returns (rc: int)
      requires Valid() && (src.Bytes? ==> len <= |src.bytes|)
      modifies this, data
      ensures Valid() && consumed == old(consumed) && readPos == old(readPos)
      ensures rc == if src.Bytes? && Accepts(cap, |old(stream)|, consumed, len) then 0 else -1
      ensures rc == 0 ==> stream == old(stream) + src.bytes[..len]
      ensures rc != 0 ==> stream == old(stream) && data[..] == old(data[..])
    {
      if len == 0 || len > cap / 2 { return -1; }
      if src.Null? { return -1; }
      var w, r := writePos, readPos;
      SpaceTestExact(cap, |stream|, consumed, len);
      if Sub64(Add64(w, len), r) > cap { return -1; }
      PhysIsCell(cap, |stream|);
      CopyIn(|stream|, RingPhys(cap, w), src.bytes[..len]);
      AdvanceExact(|stream|, len);
      writePos := Add64(w, len);
      stream := stream + src.bytes[..len];
      rc := 0;
    }

    method TryRead(dst: array<byte>, maxLen: u32) returns (n: u32)
      requires Valid() && maxLen <= dst.Length && dst != data
      modifies this, dst
      ensures Valid() && stream == old(stream) && writePos == old(writePos)
      ensures n == if |old(Contents())| < maxLen then |old(Contents())| else maxLen
      ensures consumed == old(consumed) + n && dst[..n] == old(Contents())[..n]
      ensures dst[n..] == old(dst[n..])
    {
      var r, w := readPos, writePos;
      DistanceExact(|stream|, consumed);
      var avail := Sub64(w, r);
      if avail == 0 { return 0; }
      n := if avail < maxLen then avail else maxLen;
      if n == 0 { return 0; }
      PhysIsCell(cap, consumed);
      RingCopyOut(consumed, RingPhys(cap, r), dst, n, Contents()[..n]);
      Advance(n);
    }

    method ReadExact(dst: array<byte>, len: u32) returns (rc: int)
      requires Valid() && len <= dst.Length && dst != data
      modifies this, dst
      ensures Valid() && stream == old(stream) && writePos == old(writePos)
      ensures rc == if len <= |old(Contents())| then 0 else -1
      ensures rc == 0 ==> consumed == old(consumed) + len && dst[..len] == old(Contents())[..len]
      ensures rc != 0 ==> consumed == old(consumed) && dst[..] == old(dst[..])
    {
      if len == 0 { return 0; }
      var r, w := readPos, writePos;
      DistanceExact(|stream|, consumed);
      if Sub64(w, r) < len { return -1; }
      PhysIsCell(cap, consumed);
      RingCopyOut(consumed, RingPhys(cap, r), dst, len, Contents()[..len]);
      Advance(len);
      rc := 0;
    }

    /** The store of read_pos that ends TryRead, ReadExact and CommitRead. */
    method Advance(n: u32)
      requires Valid() && n <= |Contents()|
      modifies this`readPos, this`consumed
      ensures Valid() && consumed == old(consumed) + n
    {
      AdvanceExact(consumed, n);
      readPos := Add64(readPos, n);
      consumed := consumed + n;
    }

    /** The two segments, as offsets into the data area. */
    method Peek() returns (rc: int, seg1: nat, len1: u32, seg2: nat, len2: u32)
      requires Valid()
      ensures rc == if Contents() == [] then -1 else 0
      ensures rc != 0 ==> len1 == len2 == 0
      ensures rc == 0 ==> seg1 == CellOf(cap, consumed) && seg2 == 0 && 0 < len1
      ensures rc == 0 ==> len1 == if |Contents()| <= cap - seg1 then |Contents()| else cap - seg1
      ensures rc == 0 ==> seg1 + len1 <= cap && len2 <= cap && data[seg1..seg1 + len1] + data[..len2] == Contents()
    {
      var r, w := readPos, writePos;
      DistanceExact(|stream|, consumed);
      var avail := Sub64(w, r);
      seg1, len1, seg2, len2 := 0, 0, 0, 0;
      if avail == 0 { return -1, seg1, len1, seg2, len2; }
      PhysIsCell(cap, consumed);
      var phys := RingPhys(cap, r);
      var contig := cap - phys;
      seg1 := phys;
      if avail <= contig {
        len1 := avail;
      } else {
        len1, len2 := contig, avail - contig;
      }
      rc := 0;
      SegmentsAre(seg1, len1, len2);
    }

    lemma SegmentsAre(seg1: nat, len1: nat, len2: nat)
      requires Valid() && seg1 == CellOf(cap, consumed) && len1 + len2 == |Contents()|
      requires seg1 + len1 <= cap && (len2 > 0 ==> seg1 + len1 == cap)
      ensures data[seg1..seg1 + len1] + data[..len2] == Contents()
    {
      forall k | 0 <= k < |Contents()|
        ensures Contents()[k] == if k < len1 then data[seg1 + k] else data[k - len1]
      {
        CellOffset(cap, consumed, k);
        assert data[CellOf(cap, consumed + k)] == stream[consumed + k];
      }
    }

    method CommitRead(len: u32)
      requires Valid() && len <= |Contents()|
      modifies this`readPos, this`consumed
      ensures Valid() && consumed == old(consumed) + len
    {
      Advance(len);
    }

    method Available() returns (n: u64)
      requires Valid()
      ensures n == |Contents()|
    {
      DistanceExact(|stream|, consumed);
      n := Sub64(writePos, readPos);
    }

    method FreeSpace() returns (n: u64)
      requires Valid()
      ensures n == cap - |Contents()|
    {
      var avail := Available();
      WrapSmall(cap - avail);
      n := Sub64(cap, avail);
    }
  }

  /**
    The batch writer: one snapshot of the cursors, local writes, one publication.

    `snap` is the read position it took at construction. The reader may have moved
    on since; nothing in `Valid` asks the snapshot to be current. At most one
    writer is active on a ring: nobody else publishes while this one is valid.
   */
  class BatchWriter {
    const ring: RingBuf
    var w: u64
    var r: u64
    var wStart: u64
    var count: int
    ghost var snap: nat
    ghost var pending: seq<byte>
    /** The number of writes that `count` stands for. */
    ghost var writes: nat

    ghost predicate Valid()
      reads this, ring, ring.data
    {
      && ring.Valid()
      && wStart == Wrap64(|ring.stream|) && w == Wrap64(End()) && r == Wrap64(snap)
      && snap <= ring.consumed && End() <= snap + ring.cap
      && ring.Holds(|ring.stream|, pending)
      && count == Int32(writes)
    }

    /** Unbounded value of w_. */
    ghost function End(): nat
      reads this, ring
    {
      |ring.stream| + |pending|
    }

    /** What the notification rests on: there are writes exactly when there are unpublished bytes. */
    ghost predicate CountOk()
      reads this
    {
      writes <= |pending| && (writes == 0 <==> pending == [])
    }

    /** Pending bytes beyond one for each write. */
    ghost function Slack(): int
      reads this
    {
      |pending| - writes
    }

    constructor (ring: RingBuf)
      requires ring.Valid()
      ensures Valid() && CountOk() && this.ring == ring && pending == [] && count == writes == 0 && snap == ring.consumed
    {
      this.ring := ring;
      w, r, wStart, count := ring.writePos, ring.readPos, ring.writePos, 0;
      snap, pending, writes := ring.consumed, [], 0;
    }

    method TryWrite(src: Source, len: u32) returns (rc: int)
      requires Valid() && (src.Bytes? ==> len <= |src.bytes|)
      modifies this`w, this`count, this`pending, this`writes, ring.data
      ensures Valid()
      ensures rc == if src.Bytes? && Accepts(ring.cap, old(End()), snap, len) then 0 else -1
      ensures rc == 0 ==> pending == old(pending) + src.bytes[..len] && writes == old(writes) + 1
      ensures rc != 0 ==> pending == old(pending) && writes == old(writes)
    {
      if len == 0 || len > ring.cap / 2 { return -1; }
      if src.Null? { return -1; }
      SpaceTestExact(ring.cap, End(), snap, len);
      if Sub64(Add64(w, len), r) > ring.cap { return -1; }
      PhysIsCell(ring.cap, End());
      ring.CopyIn(End(), RingPhys(ring.cap, w), src.bytes[..len]);
      Append(len, src.bytes[..len]);
      rc := 0;
    }

    /** `w_ += len; ++count_`, once the bytes are in place. */
    method Append(len: u32, ghost bytes: seq<byte>)
      requires Valid() && |bytes| == len && End() + len <= snap + ring.cap && ring.Holds(End(), bytes)
      modifies this`w, this`count, this`pending, this`writes
      ensures Valid() && pending == old(pending) + bytes && writes == old(writes) + 1
    {
      AdvanceExact(End(), len);
      w := Add64(w, len);
      IncExact(writes);
      count, writes := Inc32(count), writes + 1;
      pending := pending + bytes;
    }

    method Flush() returns (n: int)
      requires Valid()
      modifies this`wStart, this`count, this`pending, this`writes, ring`writePos, ring`stream
      ensures Valid() && CountOk() && n == old(count) && count == writes == 0 && pending == []
      ensures ring.stream == old(ring.stream) + old(pending)
    {
      n := count;
      DistanceExact(End(), |ring.stream|);
      if w != wStart {
        ring.writePos := w;
        wStart := w;
      } else {
        assert pending == [];
      }
      count, writes := 0, 0;
      ring.stream, pending := ring.stream + pending, [];
    }

    method PendingBytes() returns (n: u64)
      requires Valid()
      ensures n == |pending|
    {
      DistanceExact(End(), |ring.stream|);
      n := Sub64(w, wStart);
    }

    method FreeBytes() returns (n: u64)
      requires Valid()
      ensures n == snap + ring.cap - End()
    {
      SpaceTestExact(ring.cap, End(), snap, 0);
      n := Sub64(ring.cap, Sub64(w, r));
    }

    method Cancel()
      requires Valid()
      modifies this`w, this`count, this`pending, this`writes
      ensures Valid() && CountOk() && pending == [] && count == writes == 0
    {
      w := wStart;
      count, writes := 0, 0;
      pending := [];
    }

    method RewindTo(bytes: u64, toCount: int, ghost toWrites: nat)
      requires Valid() && bytes <= |pending| && toCount == Int32(toWrites)
      modifies this`w, this`count, this`pending, this`writes
      ensures Valid() && pending == old(pending)[..bytes] && count == toCount && writes == toWrites
    {
      AdvanceExact(|ring.stream|, bytes);
      w := Add64(wStart, bytes);
      count, writes := toCount, toWrites;
      pending := pending[..bytes];
    }

    /** Whether Reserve hands out a pointer: room, and no wrap. */
    ghost predicate Reservable(len: nat)
      reads this, ring
    {
      Accepts(ring.cap, End(), snap, len) && CellOf(ring.cap, End()) + len <= ring.cap
    }

    /** Offset of the reserved area, or -1 for nullptr. */
    method Reserve(len: u32) returns (at: int)
      requires Valid()
      ensures at == if Reservable(len) then CellOf(ring.cap, End()) else -1
    {
      if len == 0 || len > ring.cap / 2 { return -1; }
      SpaceTestExact(ring.cap, End(), snap, len);
      if Sub64(Add64(w, len), r) > ring.cap { return -1; }
      PhysIsCell(ring.cap, End());
      var phys := RingPhys(ring.cap, w);
      if len > ring.cap - phys { return -1; }
      at := phys;
    }

    /** The caller's own stores through the pointer Reserve returned. */
    method Fill(at: nat, bytes: seq<byte>)
      requires Valid() && Reservable(|bytes|) && at == CellOf(ring.cap, End())
      modifies ring.data
      ensures Valid() && ring.data[at..at + |bytes|] == bytes
    {
      ring.CopyIn(End(), at, bytes);
      forall k | 0 <= k < |bytes|
        ensures ring.data[at + k] == bytes[k]
      {
        CellOffset(ring.cap, End(), k);
        assert ring.data[CellOf(ring.cap, End() + k)] == bytes[End() + k - End()];
      }
    }

    method CommitReserve(len: u32)
      requires Valid() && Reservable(len)
      modifies this`w, this`count, this`pending, this`writes
      ensures Valid() && writes == old(writes) + 1
      ensures var at := CellOf(ring.cap, old(End()));
        pending == old(pending) + ring.data[at..at + len]
    {
      ghost var at := CellOf(ring.cap, End());
      forall p | End() <= p < End() + len
        ensures ring.data[CellOf(ring.cap, p)] == ring.data[at..at + len][p - End()]
      {
        CellOffset(ring.cap, End(), p - End());
      }
      Append(len, ring.data[at..at + len]);
    }

    /**
      SerializeToBatch: straight into the ring when the area does not wrap, through
      a temporary buffer otherwise. Either way the effect is that of TryWrite.
     */
    method SerializeToBatch(bytes: seq<byte>)
      requires Valid() && |bytes| < TWO_32
      modifies this`w, this`count, this`pending, this`writes, ring.data
      ensures Valid()
      ensures if Accepts(ring.cap, old(End()), snap, |bytes|)
              then pending == old(pending) + bytes && writes == old(writes) + 1
              else pending == old(pending) && writes == old(writes)
    {
      var at := Reserve(|bytes|);
      if at >= 0 {
        Fill(at, bytes);
        CommitReserve(|bytes|);
      } else {
        var rc := TryWrite(Bytes(bytes), |bytes|);
        assert bytes[..|bytes|] == bytes;
      }
    }
  }

  // ---------------------------------------------------------------------
  // A batch against one TryWrite after the other
  // ---------------------------------------------------------------------

  /** One write into a batch: TryWrite, or Reserve, fill and CommitReserve. */
  datatype Write = Copied(bytes: seq<byte>) | Reserved(bytes: seq<byte>)

  predicate Taken(cap: nat, w: nat, snap: nat, x: Write) {
    && Accepts(cap, w, snap, |x.bytes|)
    && (x.Reserved? ==> CellOf(cap, w) + |x.bytes| <= cap)
  }

  /** The bytes of the writes a batch takes out of those offered, in order. */
  function Kept(cap: nat, w: nat, snap: nat, offered: seq<Write>): (kept: seq<seq<byte>>)
    decreases |offered|
  {
    if offered == [] then []
    else if Taken(cap, w, snap, offered[0]) then
      [offered[0].bytes] + Kept(cap, w + |offered[0].bytes|, snap, offered[1..])
    else Kept(cap, w, snap, offered[1..])
  }

  function Joined(writes: seq<seq<byte>>): seq<byte> {
    if writes == [] then [] else writes[0] + Joined(writes[1..])
  }

  /** What a list of writes adds to the pending bytes of a batch. */
  function Written(cap: nat, w: nat, snap: nat, offered: seq<Write>): (r: seq<byte>)
    requires w <= snap + cap
    ensures w + |r| <= snap + cap
    decreases |offered|
  {
    if offered == [] then []
    else if Taken(cap, w, snap, offered[0]) then
      offered[0].bytes + Written(cap, w + |offered[0].bytes|, snap, offered[1..])
    else Written(cap, w, snap, offered[1..])
  }

  method WriteOne(batch: BatchWriter, x: Write)
    requires batch.Valid() && |x.bytes| < TWO_32
    modifies batch`w, batch`count, batch`pending, batch`writes, batch.ring.data
    ensures batch.Valid()
    ensures batch.pending == old(batch.pending) +
              if Taken(batch.ring.cap, old(batch.End()), batch.snap, x) then x.bytes else []
    ensures old(batch.CountOk()) ==> batch.CountOk() && batch.Slack() >= old(batch.Slack())
  {
    if x.Copied? {
      var rc := batch.TryWrite(Bytes(x.bytes), |x.bytes|);
      assert x.bytes[..|x.bytes|] == x.bytes;
    } else {
      var at := batch.Reserve(|x.bytes|);
      if at >= 0 {
        batch.Fill(at, x.bytes);
        batch.CommitReserve(|x.bytes|);
      }
    }
  }

  /** Any run of writes, as a payload callback makes them. */
  method WriteAll(batch: BatchWriter, offered: seq<Write>)
    requires batch.Valid() && forall i :: 0 <= i < |offered| ==> |offered[i].bytes| < TWO_32
    modifies batch`w, batch`count, batch`pending, batch`writes, batch.ring.data
    ensures batch.Valid()
    ensures batch.pending == old(batch.pending) + Written(batch.ring.cap, old(batch.End()), batch.snap, offered)
    ensures old(batch.CountOk()) ==> batch.CountOk() && batch.Slack() >= old(batch.Slack())
  {
    var i := 0;
    ghost var cap, snap := batch.ring.cap, batch.snap;
    ghost var goal := batch.pending + Written(cap, batch.End(), snap, offered);
    assert offered[0..] == offered;
    while i < |offered|
      invariant i <= |offered| && batch.Valid()
      invariant old(batch.CountOk()) ==> batch.CountOk() && batch.Slack() >= old(batch.Slack())
      invariant batch.pending + Written(cap, batch.End(), snap, offered[i..]) == goal
    {
      assert offered[i..][1..] == offered[i + 1..];
      ghost var before := batch.pending;
      WriteOne(batch, offered[i]);
      ghost var rest := Written(cap, batch.End(), snap, offered[i + 1..]);
      assert (before + offered[i].bytes) + rest == before + (offered[i].bytes + rest);
      i := i + 1;
    }
  }

  /** Published one by one, the k-th TryWrite seeing read position rs[k]: all accepted? */
  predicate AllAccepted(cap: nat, w: nat, rs: seq<nat>, writes: seq<seq<byte>>)
    requires |rs| == |writes|
    decreases |writes|
  {
    writes == [] ||
    (Accepts(cap, w, rs[0], |writes[0]|) && AllAccepted(cap, w + |writes[0]|, rs[1..], writes[1..]))
  }

  /**
    The stale snapshot is conservative: whatever the batch takes, TryWrite calls
    made one by one, each with any read position at or beyond the snapshot, accept
    too, and the bytes that end up published are the same.
   */
  lemma {:induction false} BatchRefinesTryWrite(cap: nat, w: nat, snap: nat, offered: seq<Write>, rs: seq<nat>)
    requires w <= snap + cap
    requires |rs| == |Kept(cap, w, snap, offered)|
    requires forall k :: 0 <= k < |rs| ==> snap <= rs[k]
    ensures AllAccepted(cap, w, rs, Kept(cap, w, snap, offered))
    ensures Joined(Kept(cap, w, snap, offered)) == Written(cap, w, snap, offered)
    decreases |offered|
  {
    if offered != [] {
      if Taken(cap, w, snap, offered[0]) {
        BatchRefinesTryWrite(cap, w + |offered[0].bytes|, snap, offered[1..], rs[1..]);
      } else {
        BatchRefinesTryWrite(cap, w, snap, offered[1..], rs);
      }
    }
  }

  // ---------------------------------------------------------------------
  // The number of writes as an int
  // ---------------------------------------------------------------------

  lemma {:induction false} KeptBound(cap: nat, w: nat, snap: nat, offered: seq<Write>)
    requires w <= snap + cap
    ensures w + |Kept(cap, w, snap, offered)| <= snap + cap
    decreases |offered|
  {
    if offered != [] {
      KeptBound(cap, if Taken(cap, w, snap, offered[0]) then w + |offered[0].bytes| else w, snap, offered[1..]);
    }
  }

  /** n writes of one byte each. */
  function Ones(n: nat): (ws: seq<Write>) {
    if n == 0 then [] else [Copied([0])] + Ones(n - 1)
  }

  lemma {:induction false} KeptOnes(cap: nat, w: nat, snap: nat, n: nat)
    requires cap >= 2 && w + n <= snap + cap
    ensures |Kept(cap, w, snap, Ones(n))| == n
    decreases n
  {
    if n != 0 {
      assert Ones(n)[0] == Copied([0]) && Ones(n)[1..] == Ones(n - 1);
      KeptOnes(cap, w + 1, snap, n - 1);
    }
  }

  /** The writes a batch takes out of those offered are counted without overflow. */
  predicate CountExact(cap: nat, w: nat, snap: nat, offered: seq<Write>) {
    snap <= w <= snap + cap ==> Int32(|Kept(cap, w, snap, offered)|) == |Kept(cap, w, snap, offered)|
  }

  /** count_ is exact whatever is written, for every capacity but the largest, 2^31. */
  lemma CountExactIff(cap: nat)
    requires ValidCapacity(cap)
    ensures (forall w, snap, offered :: CountExact(cap, w, snap, offered)) <==> cap < TWO_31
  {
    if cap < TWO_31 {
      forall w: nat, snap: nat, offered
        ensures CountExact(cap, w, snap, offered)
      {
        if snap <= w <= snap + cap {
          KeptBound(cap, w, snap, offered);
        }
      }
    } else {
      KeptOnes(cap, 0, 0, cap);
      assert !CountExact(cap, 0, 0, Ones(cap));
    }
  }

  /** A position before a block and less than a lap before its end is in none of its cells. */
  lemma {:induction false} OtherCell(cap: nat, pos: nat, n: nat, p: nat)
    requires cap > 0 && n <= cap && pos + n <= p + cap && p < pos
    ensures var phys, c := CellOf(cap, pos), CellOf(cap, p);
      if phys + n <= cap then !(phys <= c < phys + n) else n - (cap - phys) <= c < phys
  {
    var phys, c := CellOf(cap, pos), CellOf(cap, p);
    var k := if phys <= c then c - phys else c + cap - phys;
    CellOffset(cap, pos, k);
    SameCell(cap, p, pos + k);
  }
}
