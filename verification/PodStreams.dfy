/**
  A connection with SimplePodCodec: the packets one side encodes, one behind the
  other, are the messages the other side's callback gets.
 */
module PodStreams {
  import opened Basics
  import opened RingMath
  import opened Framing
  import opened StreamParsing
  import opened ConnStates
  import opened Draining
  import opened Connections
  import Pod = SimplePodCodec

  /** A value whose type holds its tag in the registry: Encode takes it. */
  predicate Current(reg: Pod.Registry, v: Pod.Any) {
    v.Valid() && v.ty in reg.tagOf && reg.tagOf[v.ty] == v.ty.tag && v.ty.tag in reg.opsOf && reg.opsOf[v.ty.tag] == v.ty
  }

  function Packets(vs: seq<Pod.Any>): seq<byte> {
    if vs == [] then [] else Pod.Packet(vs[0]) + Packets(vs[1..])
  }

  /** The messages the decoder hands out for these values. */
  function Unpacked(vs: seq<Pod.Any>): (r: seq<Option<Pod.Any>>)
    ensures |r| == |vs| && forall i :: 0 <= i < |vs| ==> r[i] == Some(vs[i])
  {
    if vs == [] then [] else [Some(vs[0])] + Unpacked(vs[1..])
  }

  function AsMessages(vs: seq<Pod.Any>): seq<Item<Option<Pod.Any>>> {
    if vs == [] then [] else [Message(Some(vs[0]))] + AsMessages(vs[1..])
  }

  /** A packet at the front is taken off whole, as a message with its value. */
  lemma PacketTaken(reg: Pod.Registry, v: Pod.Any, rest: seq<byte>)
    requires Current(reg, v)
    ensures Look(Pod.Decoder(reg), Pod.Packet(v) + rest) == Take(|Pod.Packet(v)|, Message(Some(v)))
  {
    var buflen := TAG_SIZE + v.ty.size;
    assert Pod.EncodeResult(reg, v, buflen) == Pod.Encoded(Pod.Packet(v));
    Pod.RoundTrip(reg, v, buflen, rest);
  }

  /** One parse finds the values, and waits for the rest of an incomplete packet behind them. */
  lemma {:induction false} ParsePackets(reg: Pod.Registry, vs: seq<Pod.Any>, rest: seq<byte>)
    requires forall i :: 0 <= i < |vs| ==> Current(reg, vs[i])
    requires Look(Pod.Decoder(reg), rest).Wait?
    ensures Parse(Pod.Decoder(reg), Packets(vs) + rest) == Parsed(AsMessages(vs), |Packets(vs)|, false)
    decreases |vs|
  {
    if vs == [] {
      assert Packets(vs) + rest == rest;
    } else {
      var tail := Packets(vs[1..]) + rest;
      assert Packets(vs) + rest == Pod.Packet(vs[0]) + tail;
      PacketTaken(reg, vs[0], tail);
      assert (Pod.Packet(vs[0]) + tail)[|Pod.Packet(vs[0])|..] == tail;
      ParsePackets(reg, vs[1..], rest);
    }
  }

  lemma {:induction false} AllAreMessages(vs: seq<Pod.Any>)
    ensures Messages(AsMessages(vs)) == Unpacked(vs) && |AsMessages(vs)| == |vs|
    decreases |vs|
  {
    if vs != [] {
      AllAreMessages(vs[1..]);
      MessagesCons(Message(Some(vs[0])), AsMessages(vs[1..]));
    }
  }

  /** A callback that leaves its connection alone gets everything. */
  lemma {:induction false} QuietGetsAll<P>(state: ConnState, msgs: seq<P>, app: App, k: nat)
    requires app.hasCb && Open(state) && forall i :: app.reactions(i) == Nothing
    ensures Deliver(state, msgs, app, k) == Dispatch(msgs, state)
    decreases |msgs|
  {
    if msgs != [] {
      QuietGetsAll(state, msgs[1..], app, k + 1);
      assert msgs == [msgs[0]] + msgs[1..];
    }
  }

  /**
    DrainRing on the packets of any values, with or without the beginning of another
    one behind them: it returns their number, finds no heartbeat and consumes exactly
    the packets; the callback of an open connection gets exactly the values, in
    order, as long as it leaves the connection alone, and otherwise as many as it
    takes until the connection is no longer open.
   */
  lemma ValuesDelivered(reg: Pod.Registry, vs: seq<Pod.Any>, rest: seq<byte>, c: Setup<Option<Pod.Any>>,
                        a: Snap<Option<Pod.Any>>, b: Snap<Option<Pod.Any>>, n: int, rooms: seq<nat>)
    requires forall i :: 0 <= i < |vs| ==> Current(reg, vs[i])
    requires Look(Pod.Decoder(reg), rest).Wait?
    requires c.decode == Pod.Decoder(reg) && a.unread == Packets(vs) + rest && DrainedAs(c, a, b, n, rooms)
    ensures n == |vs| && rooms == [] && b.sent == a.sent && b.consumed == a.consumed + |Packets(vs)|
    ensures b.delivered == a.delivered + Deliver(a.state, Unpacked(vs), c.app, |a.delivered|).given
    ensures c.app.hasCb && Open(a.state) && (forall i :: c.app.reactions(i) == Nothing) ==>
      b.delivered == a.delivered + Unpacked(vs) && b.state == a.state
  {
    ParsePackets(reg, vs, rest);
    AllAreMessages(vs);
    DrainIsParse(c.decode, a.unread, a.state, c.app, Tally(0, 0, a.consumed, a.delivered));
    assert a.sent + [] == a.sent;
    if c.app.hasCb && Open(a.state) && forall i :: c.app.reactions(i) == Nothing {
      QuietGetsAll(a.state, Unpacked(vs), c.app, |a.delivered|);
    }
  }
}
