/**
  ShmConnection: the drain loop, the chunked write and the encode-and-retry loop,
  proved against the functions of `Draining` and of this module.
 */
module Connections {
  import opened RingMath
  import opened Memory
  import opened RingBuffers
  import opened FrameWriter
  import opened StreamParsing
  import opened ConnStates
  import opened Draining

  /** The capacity of DefaultRingChannel, which every connection uses. */
  const DEFAULT_CAPACITY: nat := 0x80_0000

  // ---------------------------------------------------------------------
  // Encoding with retries
  // ---------------------------------------------------------------------

  /**
    A codec's answer to an Encode or SendKeepAlive call: the return value, `*size`,
    and what memory then holds from the start of the buffer on.
   */
  datatype Encoding = Encoding(len: int, need: nat, bytes: seq<byte>)

  /** The answers to successive attempts, given the buffer size of each. */
  type Encoder = (nat, nat) -> Encoding

  /**
    Answers are int32, and there is memory where a positive answer says there are
    bytes. Nothing ties the answer to the size of the buffer: the code does not
    check it, and a longer answer sends what lies behind the buffer.
   */
  ghost predicate Backed(enc: Encoder) {
    forall k, size :: -TWO_31 <= enc(k, size).len < TWO_31 && enc(k, size).len <= |enc(k, size).bytes|
  }

  /** Whether an answer makes the caller grow the buffer and try again. */
  predicate AsksAgain(a: Encoding, size: nat, max: nat) {
    a.len == NEED_MORE && a.need != 0 && a.need > size && a.need <= max
  }

  datatype Settled = Settled(last: Encoding, size: nat, attempts: nat)

  /** The retry loop, for any codec at all. */
  function Settle(enc: Encoder, k: nat, size: nat, max: nat): (r: Settled)
    decreases if size <= max then max - size else 0
  {
    var a := enc(k, size);
    if AsksAgain(a, size, max) then Settle(enc, k + 1, a.need, max) else Settled(a, size, k + 1)
  }

  /**
    The retries end, after no more attempts than there are bytes between the buffer
    and its limit; the buffer only grows, never beyond the limit, and the last
    answer is one the caller does not retry.
   */
  lemma {:induction false} SettleBounded(enc: Encoder, k: nat, size: nat, max: nat)
    ensures var r := Settle(enc, k, size, max);
      && size <= r.size && (size <= max ==> r.size <= max) && (size > max ==> r.size == size)
      && k < r.attempts <= k + 1 + (r.size - size)
      && !AsksAgain(r.last, r.size, max) && r.last == enc(r.attempts - 1, r.size)
    decreases if size <= max then max - size else 0
  {
    var a := enc(k, size);
    if AsksAgain(a, size, max) {
      SettleBounded(enc, k + 1, a.need, max);
    }
  }

  /** The bytes an answer says are to be sent. */
  function Payload(a: Encoding): seq<byte> { if 0 < a.len <= |a.bytes| then a.bytes[..a.len] else [] }

  /** A codec with one packet to encode: it asks for `need` bytes until it gets them, then writes the packet. */
  ghost predicate Packs(enc: Encoder, need: nat, packet: seq<byte>) {
    && packet != []
    && forall k: nat, size: nat :: if size < need then enc(k, size).len == 0 && enc(k, size).need == need
                                   else enc(k, size).len == |packet| && packet <= enc(k, size).bytes
  }

  /**
    The buffer grows to what such a codec asks for exactly when the limit allows it;
    then the packet comes out, and otherwise the buffer keeps its size.
   */
  lemma SettlePacks(enc: Encoder, size: nat, max: nat, need: nat, packet: seq<byte>)
    requires Packs(enc, need, packet)
    ensures var r := Settle(enc, 0, size, max);
      if need <= size || need <= max
      then r.last.len == |packet| && Payload(r.last) == packet && r.size == (if size < need then need else size)
      else r.last.len == 0 && r.size == size
  {
    assert enc(0, size).len == (if size < need then 0 else |packet|);
    if size < need <= max {
      assert enc(1, need).len == |packet| && packet <= enc(1, need).bytes;
      assert Settle(enc, 0, size, max) == Settle(enc, 1, need, max);
    }
  }

  lemma KeptPromise(enc: Encoder, size: nat, max: nat)
    ensures var r := Settle(enc, 0, size, max);
      forall need: nat, packet :: Packs(enc, need, packet) ==>
        if need <= size || need <= max
        then r.last.len == |packet| && Payload(r.last) == packet && r.size == (if size < need then need else size)
        else r.last.len == 0 && r.size == size
  {
    forall need: nat, packet | Packs(enc, need, packet)
      ensures var r := Settle(enc, 0, size, max);
        if need <= size || need <= max
        then r.last.len == |packet| && Payload(r.last) == packet && r.size == (if size < need then need else size)
        else r.last.len == 0 && r.size == size
    {
      SettlePacks(enc, size, max, need, packet);
    }
  }

  /**
    What is to become of a packet that takes a buffer of `need` bytes: with the buffer
    or its limit large enough it is sent as a whole exactly if it fits the room, and
    the buffer ends up that large; otherwise nothing is sent and the buffer stays.
   */
  predicate PacketSent(need: nat, packet: seq<byte>, size: nat, max: nat, room: int, ok: bool,
                       before: seq<byte>, after: seq<byte>, size': nat) {
    if need <= size || need <= max
    then ok == (|packet| <= room) && after == before + (if ok then packet else [])
         && size' == (if size < need then need else size)
    else !ok && after == before && size' == size
  }

  // ---------------------------------------------------------------------
  // Replies to heartbeats
  // ---------------------------------------------------------------------

  /** Bytes that go out as a whole if they fit, or not at all. */
  function IfFits(bytes: seq<byte>, room: nat): seq<byte> { if |bytes| <= room then bytes else [] }

  /** The reply that goes out. */
  function Reply(enc: Encoder, size: nat, max: nat, room: nat): seq<byte> {
    IfFits(Payload(Settle(enc, 0, size, max).last), room)
  }

  /** The buffer's size after the first n replies. */
  function SizeAfter(encs: nat -> Encoder, size: nat, max: nat, n: nat): nat {
    if n == 0 then size else Settle(encs(n - 1), 0, SizeAfter(encs, size, max, n - 1), max).size
  }

  /** What the replies add to the stream, the i-th finding `rooms[i]` bytes free. */
  function Replies(encs: nat -> Encoder, size: nat, max: nat, rooms: seq<nat>): seq<byte> {
    if rooms == [] then []
    else
      var n := |rooms| - 1;
      Replies(encs, size, max, rooms[..n]) + Reply(encs(n), SizeAfter(encs, size, max, n), max, rooms[n])
  }

  /** The room found is at least what there was at first, less what has been written since. */
  predicate RoomsOk(encs: nat -> Encoder, size: nat, max: nat, room: nat, rooms: seq<nat>) {
    rooms == [] ||
    var n := |rooms| - 1;
    RoomsOk(encs, size, max, room, rooms[..n]) && room <= rooms[n] + |Replies(encs, size, max, rooms[..n])|
  }

  /** All the replies, each whole, as with boundless room. */
  function AllReplies(encs: nat -> Encoder, size: nat, max: nat, n: nat): seq<byte> {
    if n == 0 then []
    else
      AllReplies(encs, size, max, n - 1) +
      Payload(Settle(encs(n - 1), 0, SizeAfter(encs, size, max, n - 1), max).last)
  }

  lemma RepliesSnoc(encs: nat -> Encoder, size: nat, max: nat, rooms: seq<nat>, room: nat, now: nat)
    requires now == SizeAfter(encs, size, max, |rooms|)
    ensures Replies(encs, size, max, rooms + [room]) ==
      Replies(encs, size, max, rooms) + Reply(encs(|rooms|), now, max, room)
  {
    assert (rooms + [room])[..|rooms|] == rooms;
  }

  lemma {:induction false} SizeNext(encs: nat -> Encoder, size: nat, max: nat, n: nat, next: nat)
    requires next == n + 1
    ensures SizeAfter(encs, size, max, next) == Settle(encs(n), 0, SizeAfter(encs, size, max, n), max).size
  {}

  /** Where there was room for all the replies at the start, all of them go out. */
  lemma {:induction false} EveryHeartbeatAnswered(
      encs: nat -> Encoder, size: nat, max: nat, room: nat, rooms: seq<nat>)
    requires RoomsOk(encs, size, max, room, rooms)
    requires |AllReplies(encs, size, max, |rooms|)| <= room
    ensures Replies(encs, size, max, rooms) == AllReplies(encs, size, max, |rooms|)
    decreases |rooms|
  {
    if rooms != [] {
      EveryHeartbeatAnswered(encs, size, max, room, rooms[..|rooms| - 1]);
    }
  }

  // ---------------------------------------------------------------------
  // Writing
  // ---------------------------------------------------------------------

  /** Free bytes of the ring a channel writes to. */
  ghost function Room(out: Channel): int
    requires out.ring.consumed <= |out.ring.stream|
    reads out, out.ring
  {
    out.ring.cap - |out.ring.Contents()|
  }

  /**
    WriteRaw: all or nothing, in chunks of at most Capacity/2. Before the k-th chunk
    the peer may consume up to `eaten(k)` bytes; the chunk is accepted all the same.
   */
  method WriteRaw(out: Channel, data: seq<byte>, len: u32, eaten: nat -> nat) returns (ok: bool)
    requires out.ring.Valid() && (len <= |data| || len > Room(out))
    modifies out, out.ring, out.ring.data
    ensures out.ring.Valid() && out.ring.consumed >= old(out.ring.consumed)
    ensures ok == (len == 0 || len <= old(Room(out)))
    ensures out.ring.stream == old(out.ring.stream) + if ok then data[..len] else []
    ensures out.notified == old(out.notified) + if ok && len > 0 then 1 else 0
  {
    if len == 0 { return true; }
    var free := out.ring.FreeSpace();
    if free < len { return false; }
    var done: nat, k := 0, 0;
    while done < len
      invariant done <= len && out.ring.Valid() && out.notified == old(out.notified)
      invariant out.ring.stream == old(out.ring.stream) + data[..done]
      invariant out.ring.consumed >= old(out.ring.consumed)
    {
      PeerReads(out.ring, eaten(k));
      var chunk := if len - done < out.ring.cap / 2 then len - done else out.ring.cap / 2;
      var rc := out.ring.TryWrite(Bytes(data[done..]), chunk);
      if rc != 0 {
        assert false;
      }
      ChunkAppended(old(out.ring.stream), data, done, chunk);
      done, k := done + chunk, k + 1;
    }
    out.NotifyPeer();
    ok := true;
  }

  /** The peer consumes what it likes of what is there. */
  method PeerReads(ring: RingBuf, n: nat)
    requires ring.Valid()
    modifies ring`readPos, ring`consumed
    ensures ring.Valid() && ring.consumed >= old(ring.consumed)
  {
    var avail := ring.Available();
    ring.CommitRead(if n < avail then n else avail);
  }

  lemma ChunkAppended(stream: seq<byte>, data: seq<byte>, done: nat, chunk: nat)
    requires done + chunk <= |data|
    ensures stream + data[..done] + data[done..][..chunk] == stream + data[..done + chunk]
  {}

  // ---------------------------------------------------------------------
  // The drain loop, turn by turn, on values
  // ---------------------------------------------------------------------

  /** What a drain call works on: both directions of the channel, the state, the encode buffer. */
  datatype Snap<P> = Snap(
    unread: seq<byte>, consumed: nat, state: ConnState, delivered: seq<P>,
    sent: seq<byte>, room: int, size: nat)

  /** What stays fixed during a drain call. */
  datatype Setup<!P> = Setup(
    decode: seq<byte> -> Answer<P>, app: App, keepalive: bool, encs: nat -> Encoder, max: nat)

  /** The bytes a packet makes the connection send: the reply to a heartbeat, if replies are on. */
  function Sends<P>(keepalive: bool, max: nat, a: Snap<P>, item: Item<P>, enc: Encoder): seq<byte> {
    if item.Heartbeat? && keepalive && a.room >= 0 then Reply(enc, a.size, max, a.room) else []
  }

  /** One packet dealt with; meanwhile the peer may only have made room. */
  ghost predicate Handled<P>(app: App, keepalive: bool, max: nat, a: Snap<P>, b: Snap<P>, item: Item<P>, enc: Encoder) {
    && b.state == StateAfter(app, a.state, |a.delivered|, item)
    && b.delivered == (if Dispatched(app.hasCb, a.state, item) then a.delivered + [item.pkg] else a.delivered)
    && b.sent == a.sent + Sends(keepalive, max, a, item, enc)
    && b.size == (if item.Heartbeat? && keepalive then Settle(enc, 0, a.size, max).size else a.size)
    && b.room >= 0 && a.room <= b.room + |Sends(keepalive, max, a, item, enc)|
  }

  /** One packet taken and dealt with. */
  ghost predicate Took<P>(c: Setup<P>, a: Snap<P>, b: Snap<P>, n: nat, item: Item<P>, enc: Encoder)
    requires n <= |a.unread|
  {
    && b.unread == a.unread[n..] && b.consumed == a.consumed + n
    && Handled(c.app, c.keepalive, c.max, a, b, item, enc)
  }

  /** What a call has read and dispatched since `start`. */
  ghost predicate Read<P>(c: Setup<P>, start: Snap<P>, now: Snap<P>, t: Tally<P>) {
    && t.used == now.consumed && t.given == now.delivered
    && Drain(c.decode, now.unread, now.state, c.app, t) ==
       Drain(c.decode, start.unread, start.state, c.app, Tally(0, 0, start.consumed, start.delivered))
  }

  /** What a call has answered since `start`. */
  ghost predicate Answered<P>(c: Setup<P>, start: Snap<P>, now: Snap<P>, rooms: seq<nat>) {
    && now.sent == start.sent + Replies(c.encs, start.size, c.max, rooms)
    && now.size == SizeAfter(c.encs, start.size, c.max, |rooms|)
    && 0 <= start.room <= now.room + |Replies(c.encs, start.size, c.max, rooms)|
    && RoomsOk(c.encs, start.size, c.max, start.room, rooms)
  }

  ghost predicate Underway<P>(c: Setup<P>, start: Snap<P>, now: Snap<P>, t: Tally<P>, rooms: seq<nat>) {
    Read(c, start, now, t) && Answered(c, start, now, rooms) && |rooms| == if c.keepalive then t.beats else 0
  }

  /**
    What a drain call has done when it returns n: consumed bytes, messages given and
    state are those of `Drain` of the readable bytes, n is the number of messages or
    -1, and every heartbeat has been answered, if replies are on.
   */
  ghost predicate DrainedAs<P>(c: Setup<P>, a: Snap<P>, b: Snap<P>, n: int, rooms: seq<nat>) {
    var d := Drain(c.decode, a.unread, a.state, c.app, Tally(0, 0, a.consumed, a.delivered));
    && b.consumed == d.tally.used && b.delivered == d.tally.given && b.state == d.state
    && n == (if d.failed then -1 else d.tally.count)
    && |rooms| == (if c.keepalive then d.tally.beats else 0)
    && b.sent == a.sent + Replies(c.encs, a.size, c.max, rooms)
    && b.size == SizeAfter(c.encs, a.size, c.max, |rooms|)
    && a.room >= 0 && RoomsOk(c.encs, a.size, c.max, a.room, rooms)
  }

  lemma UnderwayMore<P>(
      c: Setup<P>, start: Snap<P>, a: Snap<P>, b: Snap<P>, t: Tally<P>, rooms: seq<nat>, n: nat, item: Item<P>)
    requires Underway(c, start, a, t, rooms) && a.room >= 0
    requires Look(c.decode, a.unread) == Take(n, item) && Took(c, a, b, n, item, c.encs(|rooms|))
    ensures Underway(c, start, b, Add(t, n, item, Dispatched(c.app.hasCb, a.state, item)),
                     RoomsMore(c, rooms, a.room, item))
  {
    ReadMore(c, start, a, b, t, n, item, c.encs(|rooms|));
    AnsweredMore(c, start, a, b, rooms, n, item);
  }

  lemma DrainEnds<P>(c: Setup<P>, start: Snap<P>, now: Snap<P>, t: Tally<P>, rooms: seq<nat>)
    requires Underway(c, start, now, t, rooms) && !Look(c.decode, now.unread).Take?
    ensures DrainedAs(c, start, now, if Look(c.decode, now.unread).Fail? then -1 else t.count, rooms)
  {}

  lemma ReadMore<P>(
      c: Setup<P>, start: Snap<P>, a: Snap<P>, b: Snap<P>, t: Tally<P>, n: nat, item: Item<P>, enc: Encoder)
    requires Read(c, start, a, t) && Look(c.decode, a.unread) == Take(n, item) && Took(c, a, b, n, item, enc)
    ensures Read(c, start, b, Add(t, n, item, Dispatched(c.app.hasCb, a.state, item)))
  {}

  /** The rooms seen, with the one a turn found if it answered a heartbeat. */
  function RoomsMore<P>(c: Setup<P>, rooms: seq<nat>, room: int, item: Item<P>): seq<nat> {
    if item.Heartbeat? && c.keepalive && room >= 0 then rooms + [room] else rooms
  }

  lemma RoomsOkMore(
      encs: nat -> Encoder, size: nat, max: nat, first: nat, rooms: seq<nat>, room: nat)
    requires RoomsOk(encs, size, max, first, rooms) && first <= room + |Replies(encs, size, max, rooms)|
    ensures RoomsOk(encs, size, max, first, rooms + [room])
  {
    assert (rooms + [room])[..|rooms|] == rooms;
  }

  /** A heartbeat answered. */
  lemma OneAnswer<P>(c: Setup<P>, start: Snap<P>, a: Snap<P>, b: Snap<P>, rooms: seq<nat>)
    requires Answered(c, start, a, rooms) && a.room >= 0
    requires var reply := Reply(c.encs(|rooms|), a.size, c.max, a.room);
      b.sent == a.sent + reply && b.room >= 0 && a.room <= b.room + |reply|
    requires b.size == Settle(c.encs(|rooms|), 0, a.size, c.max).size
    ensures Answered(c, start, b, rooms + [a.room])
  {
    var before := Replies(c.encs, start.size, c.max, rooms);
    var reply := Reply(c.encs(|rooms|), a.size, c.max, a.room);
    RepliesSnoc(c.encs, start.size, c.max, rooms, a.room, a.size);
    SizeNext(c.encs, start.size, c.max, |rooms|, |rooms + [a.room]|);
    RoomsOkMore(c.encs, start.size, c.max, start.room, rooms, a.room);
    assert start.sent + before + reply == start.sent + (before + reply);
  }

  lemma AnsweredMore<P>(
      c: Setup<P>, start: Snap<P>, a: Snap<P>, b: Snap<P>, rooms: seq<nat>, n: nat, item: Item<P>)
    requires Answered(c, start, a, rooms) && a.room >= 0 && n <= |a.unread|
    requires Took(c, a, b, n, item, c.encs(|rooms|))
    ensures Answered(c, start, b, RoomsMore(c, rooms, a.room, item))
  {
    if item.Heartbeat? && c.keepalive {
      OneAnswer(c, start, a, b, rooms);
    }
  }

  /** A call of DrainRing is a drain call of `Draining`, whose results over many calls carry over. */
  lemma DrainRingIsCall<P>(
      c: Setup<P>, stream: seq<byte>, a: Snap<P>, b: Snap<P>, n: int, rooms: seq<nat>, visible: nat)
    requires DrainedAs(c, a, b, n, rooms)
    requires a.consumed <= visible <= |stream| && a.unread == stream[a.consumed..visible]
    ensures DrainCall(c.decode, stream, Reader(a.consumed, a.delivered, a.state, false), c.app, visible) ==
      Reader(b.consumed, b.delivered, b.state, n == -1)
  {}

  /** The call has consumed nothing, given nothing and sent nothing. */
  ghost predicate LeftAlone<P>(a: Snap<P>, b: Snap<P>, rooms: seq<nat>) {
    b.consumed == a.consumed && b.delivered == a.delivered && b.state == a.state && b.sent == a.sent && rooms == []
  }

  /** A call that cannot take anything off the ring: -1 with the bytes unread, or 0. */
  lemma DrainRingRefuses<P>(c: Setup<P>, a: Snap<P>, b: Snap<P>, n: int, rooms: seq<nat>)
    requires DrainedAs(c, a, b, n, rooms)
    ensures a.unread == [] || c.decode(a.unread).len == 0 ==> n == 0 && LeftAlone(a, b, rooms)
    ensures a.unread != [] && (c.decode(a.unread).len == -1 || c.decode(a.unread).len < -2) ==>
      n == -1 && LeftAlone(a, b, rooms)
    ensures a.unread != [] && c.decode(a.unread).len > |a.unread| ==> n == -1 && LeftAlone(a, b, rooms)
    ensures a.unread != [] && c.decode(a.unread).len == -2 && !(0 < c.decode(a.unread).out <= |a.unread|) ==>
      n == -1 && LeftAlone(a, b, rooms)
  {
    if a.unread != [] {
      DrainByAnswer(c.decode, a.unread, a.state, c.app, Tally(0, 0, a.consumed, a.delivered));
    }
  }

  /**
    A call that finds one heartbeat, and nothing else, counts no message and gives
    none; it answers with the whole reply if that fits, when replies are on.
   */
  lemma DrainRingHeartbeat<P>(c: Setup<P>, a: Snap<P>, b: Snap<P>, n: int, rooms: seq<nat>)
    requires DrainedAs(c, a, b, n, rooms) && a.unread != []
    requires c.decode(a.unread).len == -2 && c.decode(a.unread).out == |a.unread|
    ensures n == 0 && b.consumed == a.consumed + |a.unread| && b.delivered == a.delivered && b.state == a.state
    ensures !c.keepalive ==> b.sent == a.sent && b.size == a.size
    ensures c.keepalive ==>
      var r := Settle(c.encs(0), 0, a.size, c.max);
      b.size == r.size && (|Payload(r.last)| <= a.room ==> b.sent == a.sent + Payload(r.last))
  {
    DrainByAnswer(c.decode, a.unread, a.state, c.app, Tally(0, 0, a.consumed, a.delivered));
    assert a.unread[|a.unread|..] == [];
    if c.keepalive {
      OneReply(c.encs, a.size, c.max, a.room, rooms);
    } else {
      assert a.sent + [] == a.sent;
    }
  }

  lemma OneReply(encs: nat -> Encoder, size: nat, max: nat, room: nat, rooms: seq<nat>)
    requires |rooms| == 1 && RoomsOk(encs, size, max, room, rooms)
    ensures var r := Settle(encs(0), 0, size, max);
      && SizeAfter(encs, size, max, |rooms|) == r.size
      && (|Payload(r.last)| <= room ==> Replies(encs, size, max, rooms) == Payload(r.last))
  {
    assert rooms == [] + [rooms[0]] && rooms[..0] == [];
    RepliesSnoc(encs, size, max, [], rooms[0], size);
    SizeNext(encs, size, max, 0, 1);
    assert Replies(encs, size, max, []) == [];
  }

  /** A call that finds one message, and nothing else, counts it and gives it to an open connection's callback. */
  lemma DrainRingMessage<P>(c: Setup<P>, a: Snap<P>, b: Snap<P>, n: int, rooms: seq<nat>)
    requires DrainedAs(c, a, b, n, rooms) && a.unread != [] && c.decode(a.unread).len == |a.unread|
    ensures n == 1 && b.consumed == a.consumed + |a.unread| && b.sent == a.sent && rooms == []
    ensures b.delivered == a.delivered +
      if c.app.hasCb && (a.state == Established || a.state == Verifying) then [c.decode(a.unread).pkg] else []
  {
    DrainByAnswer(c.decode, a.unread, a.state, c.app, Tally(0, 0, a.consumed, a.delivered));
    assert a.unread[|a.unread|..] == [];
    assert a.sent + [] == a.sent;
  }

  // ---------------------------------------------------------------------
  // The connection
  // ---------------------------------------------------------------------

  datatype CloseType = Active | Passive

  /** A length returned by the codec, cast to u32. */
  function Cast32(len: int): u32
    requires -TWO_31 <= len < TWO_31
  {
    if len < 0 then len + TWO_32 else len
  }

  class ShmConnection<!P> {
    const ring: RingBuf
    const out: Channel
    const hasCodec: bool
    const hasMessageCb: bool
    const hasCloseCb: bool
    const decode: seq<byte> -> Answer<P>
    var state: ConnState
    var closeType: CloseType
    var socketShut: bool
    /** The verify timer, 0 for none, and the timers taken out of the loop. */
    var verifyTimer: int
    var cancelled: seq<int>
    var keepalive: bool
    var bufSize: nat
    var maxBuffer: nat
    var staging: array<byte>
    /** Messages handed to the application, and close callbacks fired, so far. */
    var delivered: seq<P>
    var closes: nat

    ghost predicate Valid()
      reads this, ring, ring.data, out, out.ring, out.ring.data
    {
      && ring.Valid() && out.ring.Valid()
      && ring != out.ring && ring.data != out.ring.data && out.ring.cap == DEFAULT_CAPACITY
      && staging != ring.data && staging != out.ring.data
    }

    constructor (ring: RingBuf, out: Channel, hasCodec: bool, hasMessageCb: bool, hasCloseCb: bool,
                 decode: seq<byte> -> Answer<P>)
      requires ring.Valid() && out.ring.Valid() && ring != out.ring && ring.data != out.ring.data
      requires out.ring.cap == DEFAULT_CAPACITY
      ensures Valid() && this.ring == ring && this.out == out && this.decode == decode
      ensures this.hasCodec == hasCodec && this.hasMessageCb == hasMessageCb && this.hasCloseCb == hasCloseCb
      ensures state == Closed && closeType == Passive && verifyTimer == 0 && delivered == [] && fresh(staging)
    {
      this.ring, this.out, this.decode := ring, out, decode;
      this.hasCodec, this.hasMessageCb, this.hasCloseCb := hasCodec, hasMessageCb, hasCloseCb;
      state, closeType, socketShut, keepalive := Closed, Passive, false, false;
      verifyTimer, cancelled := 0, [];
      bufSize, maxBuffer := 128 * 1024, 1024 * 1024;
      staging := new byte[0];
      delivered, closes := [], 0;
    }

    /** No verify timer is left: the one there was, if any, has been taken out of the loop, once. */
    twostate predicate TimerGone()
      reads this
    {
      verifyTimer == 0 && cancelled == old(cancelled) + if old(verifyTimer) != 0 then [old(verifyTimer)] else []
    }

    method RemoveVerifyTimer()
      modifies this`verifyTimer, this`cancelled
      ensures TimerGone()
    {
      if verifyTimer != 0 {
        cancelled := cancelled + [verifyTimer];
        verifyTimer := 0;
      }
    }

    method Close()
      modifies this`state, this`closeType, this`socketShut, this`verifyTimer, this`cancelled
      ensures state == AfterClose(old(state)) && TimerGone()
      ensures closeType == if Open(old(state)) then Active else old(closeType)
      ensures socketShut == (old(socketShut) || Open(old(state)))
    {
      if state == Established || state == Verifying {
        closeType := Active;
        state := Closing;
        socketShut := true;
      }
      RemoveVerifyTimer();
    }

    method OnVerify(succ: bool)
      modifies this`state, this`closeType, this`socketShut, this`verifyTimer, this`cancelled
      ensures state == AfterVerify(old(state), succ) && TimerGone()
    {
      RemoveVerifyTimer();
      if succ {
        state := Established;
      } else {
        Close();
      }
    }

    method OnClose()
      modifies this`state, this`verifyTimer, this`cancelled, this`closes
      ensures state == Closed && TimerGone()
      ensures closes == old(closes) + if old(state) != Closed && hasCloseCb then 1 else 0
    {
      if state != Closed {
        state := Closed;
        if hasCloseCb {
          closes := closes + 1;
        }
      }
      RemoveVerifyTimer();
    }

    /** Two segments copied one behind the other into the staging buffer, grown if need be. */
    method Stage(s1: seq<byte>, s2: seq<byte>) returns (bytes: seq<byte>)
      modifies this`staging, staging
      ensures (staging == old(staging) || fresh(staging)) && bytes == s1 + s2
    {
      if staging.Length < |s1| + |s2| {
        staging := new byte[|s1| + |s2|];
      }
      MemCopy(staging, 0, s1);
      assert staging[..|s1|] == staging[0..0 + |s1|];
      MemAppend(staging, s1, s2);
      bytes := staging[..|s1| + |s2|];
    }

    /** The readable bytes in one piece: in place, or linearised when they wrap. */
    method Linearise() returns (empty: bool, bytes: seq<byte>)
      requires Valid()
      modifies this`staging, staging
      ensures Valid() && (staging == old(staging) || fresh(staging))
      ensures empty == (ring.Contents() == []) && bytes == ring.Contents()
    {
      var rc, seg1, len1, seg2, len2 := ring.Peek();
      if rc != 0 { return true, []; }
      empty := false;
      bytes := ring.data[seg1..seg1 + len1];
      if len2 > 0 {
        bytes := Stage(bytes, ring.data[..len2]);
      }
    }

    /** OnMessage, and what the callback then does. */
    method OnMessage(pkg: P, reaction: Reaction)
      modifies this`state, this`closeType, this`socketShut, this`verifyTimer, this`cancelled, this`closes,
               this`delivered
      ensures hasMessageCb && Open(old(state)) ==>
        delivered == old(delivered) + [pkg] && state == React(old(state), reaction)
      ensures !(hasMessageCb && Open(old(state))) ==> delivered == old(delivered) && state == old(state)
    {
      if hasMessageCb && (state == Established || state == Verifying) {
        delivered := delivered + [pkg];
        match reaction {
          case Nothing =>
          case CallClose => Close();
          case CallRemove => OnClose();
          case CallVerify(succ) => OnVerify(succ);
        }
      }
    }

    /** SendKeepaliveResponse: one reply as a whole, or none. */
    method SendKeepaliveResponse(enc: Encoder, eaten: nat -> nat)
      requires Valid() && Backed(enc)
      modifies this`bufSize, out, out.ring, out.ring.data
      ensures Valid() && out.ring.consumed >= old(out.ring.consumed)
      ensures !hasCodec ==> bufSize == old(bufSize) && out.ring.stream == old(out.ring.stream)
      ensures hasCodec ==> bufSize == Settle(enc, 0, old(bufSize), maxBuffer).size
      ensures hasCodec ==>
        out.ring.stream == old(out.ring.stream) + Reply(enc, old(bufSize), maxBuffer, old(Room(out)))
      ensures out.notified == old(out.notified) + if out.ring.stream != old(out.ring.stream) then 1 else 0
      ensures hasCodec ==> forall need: nat, packet :: Packs(enc, need, packet) ==>
        PacketSent(need, packet, old(bufSize), maxBuffer, old(Room(out)), out.ring.stream != old(out.ring.stream),
                   old(out.ring.stream), out.ring.stream, bufSize)
    {
      KeptPromise(enc, bufSize, maxBuffer);
      if !hasCodec { return; }
      var a := Attempts(enc);
      if a.len > 0 {
        var ignored := WriteRaw(out, a.bytes, a.len, eaten);
      }
    }

    /** The retry loop shared in shape by SendCmd and SendKeepaliveResponse. */
    method Attempts(enc: Encoder) returns (a: Encoding)
      requires Backed(enc)
      modifies this`bufSize
      ensures var r := Settle(enc, 0, old(bufSize), maxBuffer); a == r.last && bufSize == r.size
      ensures -TWO_31 <= a.len < TWO_31 && a.len <= |a.bytes|
    {
      var k := 0;
      while true
        invariant Settle(enc, k, bufSize, maxBuffer) == Settle(enc, 0, old(bufSize), maxBuffer)
        decreases if bufSize <= maxBuffer then maxBuffer - bufSize else 0
      {
        a := enc(k, bufSize);
        if a.len != NEED_MORE { return; }
        if a.need == 0 || a.need <= bufSize || a.need > maxBuffer { return; }
        bufSize := a.need;
        k := k + 1;
      }
    }

    /** SendCmd: true means sent as a whole or skipped by the codec; false means nothing was sent. */
    method SendCmd(enc: Encoder, eaten: nat -> nat) returns (ok: bool)
      requires Valid() && Backed(enc)
      modifies this`bufSize, this`state, this`closeType, this`socketShut, this`verifyTimer, this`cancelled,
               out, out.ring, out.ring.data
      ensures Valid()
      ensures !(Open(old(state)) && hasCodec) ==>
        !ok && out.ring.stream == old(out.ring.stream) && state == old(state) && bufSize == old(bufSize)
      ensures Open(old(state)) && hasCodec ==>
        var r := Settle(enc, 0, old(bufSize), maxBuffer);
        && bufSize == r.size
        && state == (if r.last.len == DISCONNECT then Closing else old(state))
        && ok == (r.last.len == SKIP || 0 < r.last.len <= old(Room(out)))
        && out.ring.stream == old(out.ring.stream) + (if ok then Payload(r.last) else [])
      ensures out.notified == old(out.notified) + if out.ring.stream != old(out.ring.stream) then 1 else 0
      ensures Open(old(state)) && hasCodec ==> forall need: nat, packet :: Packs(enc, need, packet) ==>
        PacketSent(need, packet, old(bufSize), maxBuffer, old(Room(out)), ok,
                   old(out.ring.stream), out.ring.stream, bufSize)
    {
      KeptPromise(enc, bufSize, maxBuffer);
      if !Open(state) || !hasCodec { return false; }
      var a := Attempts(enc);
      if a.len == SKIP { return true; }
      if a.len == DISCONNECT {
        Close();
        return false;
      }
      if a.len == NEED_MORE { return false; }
      ok := WriteRaw(out, a.bytes, Cast32(a.len), eaten);
    }

    // -------------------------------------------------------------------
    // DrainRing
    // -------------------------------------------------------------------

    ghost function Now(): Snap<P>
      requires ring.consumed <= |ring.stream| && out.ring.consumed <= |out.ring.stream|
      reads this, ring, out, out.ring
    {
      Snap(ring.Contents(), ring.consumed, state, delivered, out.ring.stream, Room(out), bufSize)
    }

    /** Peek, Decode and the checks on its answer: what one turn of the loop goes by. */
    method Examine() returns (v: Verdict<P>)
      requires Valid()
      modifies this`staging, staging
      ensures Valid() && (staging == old(staging) || fresh(staging)) && Now() == old(Now())
      ensures v == Look(decode, ring.Contents())
    {
      var empty, bytes := Linearise();
      if empty { return Wait; }
      var a := decode(bytes);
      if a.len == DISCONNECT { return Fail; }
      if a.len == NEED_MORE { return Wait; }
      if a.len == SKIP {
        if a.out == 0 || a.out > |bytes| { return Fail; }
        return Take(a.out, Heartbeat);
      }
      if a.len < 0 { return Fail; }
      if a.len > |bytes| { return Fail; }
      return Take(a.len, Message(a.pkg));
    }

    /** CommitRead of a packet. */
    method Consume(n: nat)
      requires Valid() && n <= |ring.Contents()|
      modifies ring`readPos, ring`consumed
      ensures Valid() && Now() == old(Now()).(unread := old(ring.Contents())[n..], consumed := old(ring.consumed) + n)
    {
      ring.CommitRead(n);
    }

    /** A heartbeat is answered if replies are on; a message is dispatched. */
    method Handle(item: Item<P>, app: App, enc: Encoder, eaten: nat -> nat)
      requires Valid() && hasCodec && Backed(enc) && app.hasCb == hasMessageCb
      modifies this`state, this`closeType, this`socketShut, this`verifyTimer, this`cancelled, this`closes,
               this`delivered, this`bufSize, out, out.ring, out.ring.data
      ensures Valid() && Now().unread == old(Now().unread) && Now().consumed == old(Now().consumed)
      ensures Handled(app, keepalive, maxBuffer, old(Now()), Now(), item, enc)
      ensures staging == old(staging)
    {
      match item {
        case Heartbeat =>
          if keepalive {
            SendKeepaliveResponse(enc, eaten);
          }
        case Message(pkg) =>
          OnMessage(pkg, app.reactions(|delivered|));
      }
    }

    /** One turn of the drain loop. */
    method DrainTurn(ghost c: Setup<P>, app: App, enc: Encoder, eaten: nat -> nat) returns (v: Verdict<P>)
      requires Valid() && hasCodec && Backed(enc) && app.hasCb == hasMessageCb
      requires c.decode == decode && c.app == app && c.keepalive == keepalive && c.max == maxBuffer
      modifies this`state, this`closeType, this`socketShut, this`verifyTimer, this`cancelled, this`closes,
               this`delivered, this`bufSize, this`staging, staging,
               ring`readPos, ring`consumed, out, out.ring, out.ring.data
      ensures Valid() && (staging == old(staging) || fresh(staging)) && ring.stream == old(ring.stream)
      ensures v == Look(decode, old(Now()).unread)
      ensures !v.Take? ==> Now() == old(Now())
      ensures v.Take? ==> Took(c, old(Now()), Now(), v.n, v.item, enc)
    {
      v := Examine();
      if v.Take? {
        Consume(v.n);
        Handle(v.item, app, enc, eaten);
      }
    }

    /**
      DrainRing: decodes, dispatches and consumes what the ring holds. Heartbeats are
      answered on the other direction's ring, the i-th with encs(i), finding
      `rooms[i]` bytes free.
     */
    method DrainRing(app: App, encs: nat -> Encoder, eaten: nat -> nat) returns (n: int, ghost rooms: seq<nat>)
      requires Valid() && app.hasCb == hasMessageCb && forall i :: Backed(encs(i))
      modifies this`state, this`closeType, this`socketShut, this`verifyTimer, this`cancelled, this`closes,
               this`delivered, this`bufSize, this`staging, staging,
               ring`readPos, ring`consumed, out, out.ring, out.ring.data
      ensures Valid() && ring.stream == old(ring.stream)
      ensures !hasCodec ==> n == -1 && Now() == old(Now())
      ensures hasCodec ==> DrainedAs(Setup(decode, app, keepalive, encs, maxBuffer), old(Now()), Now(), n, rooms)
    {
      rooms := [];
      if !hasCodec { return -1, []; }
      var count: nat, beats: nat := 0, 0;
      ghost var c := Setup(decode, app, keepalive, encs, maxBuffer);
      ghost var start := Now();
      ghost var t := Tally(0, 0, ring.consumed, delivered);
      while true
        invariant Valid() && ring.stream == old(ring.stream) && (staging == old(staging) || fresh(staging))
        invariant Underway(c, start, Now(), t, rooms) && count == t.count && beats == t.beats
        decreases |ring.Contents()|
      {
        ghost var a := Now();
        var v := DrainTurn(c, app, encs(if keepalive then beats else 0), eaten);
        if !v.Take? {
          DrainEnds(c, start, a, t, rooms);
          return if v.Fail? then -1 else count, rooms;
        }
        UnderwayMore(c, start, a, Now(), t, rooms, v.n, v.item);
        t := Add(t, v.n, v.item, Dispatched(app.hasCb, a.state, v.item));
        rooms := RoomsMore(c, rooms, a.room, v.item);
        if v.item.Message? {
          count := count + 1;
        } else {
          beats := beats + 1;
        }
      }
    }
  }
}
