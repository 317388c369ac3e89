/**
  ProtoCodec: payload `[name_len u16][type name][message bytes]`. Serialising a
  message is an abstract byte function; what is modelled is the framing around it.
 */
module ProtoCodec {
  import opened Basics
  import opened RingMath
  import opened Framing
  import opened Memory
  import opened RingBuffers
  import opened FrameWriter

  const NAME_LEN_SIZE: int := 2

  function BytesU16(s: seq<byte>): (r: u16)
    requires |s| == 2
  {
    ValueBound(s);
    Pow2Large();
    Value(s)
  }

  /** The u16 the name length is stored in. */
  function NameLen(name: seq<byte>): u16 { |name| % TWO_16 }

  function Prefix(name: seq<byte>): seq<byte> {
    LittleEndian(NameLen(name), NAME_LEN_SIZE) + name[..NameLen(name)]
  }

  /** The frame EncodeTo, Send and SendBatch produce. */
  function Encoded(name: seq<byte>, message: seq<byte>, seqNo: u32): Frame {
    Frame(seqNo, Prefix(name) + message)
  }

  datatype Parts = Parts(name: seq<byte>, message: seq<byte>, seqNo: u32)

  /** DecodeHeader: header, name and message in one pass over the buffer. */
  function DecodeHeader(buf: seq<byte>): Option<Parts> {
    if |buf| < HEADER_SIZE + NAME_LEN_SIZE then None
    else
      var len := HeaderLen(buf);
      if len < NAME_LEN_SIZE then None
      else if len > |buf| - HEADER_SIZE then None
      else
        var nameLen := BytesU16(buf[HEADER_SIZE..HEADER_SIZE + NAME_LEN_SIZE]);
        if len < NAME_LEN_SIZE + nameLen then None
        else
          var at := HEADER_SIZE + NAME_LEN_SIZE;
          Some(Parts(buf[at..at + nameLen], buf[at + nameLen..HEADER_SIZE + len], HeaderSeq(buf)))
  }

  /** The one-pass decoder: DecodeHeader, then TypeNameMatches. */
  function DecodeOnePass(expected: seq<byte>, buf: seq<byte>): Option<(seq<byte>, u32)> {
    match DecodeHeader(buf)
    case None => None
    case Some(p) => if p.name == expected then Some((p.message, p.seqNo)) else None
  }

  /** DecodePayload of a frame's payload. */
  function DecodePayload(expected: seq<byte>, payload: seq<byte>): Option<seq<byte>> {
    if |payload| < NAME_LEN_SIZE then None
    else
      var nameLen := BytesU16(payload[..NAME_LEN_SIZE]);
      if |payload| < NAME_LEN_SIZE + nameLen then None
      else if payload[NAME_LEN_SIZE..NAME_LEN_SIZE + nameLen] != expected then None
      else Some(payload[NAME_LEN_SIZE + nameLen..])
  }

  /** The two-pass decoder: the frame, then its payload. */
  function DecodeTwoPass(expected: seq<byte>, buf: seq<byte>): Option<(seq<byte>, u32)> {
    match Decode(buf)
    case None => None
    case Some(f) =>
      match DecodePayload(expected, f.body)
      case None => None
      case Some(message) => Some((message, f.seqNo))
  }

  /** The two parsers accept the same buffers, with the same result. */
  lemma ParsersAgree(expected: seq<byte>, buf: seq<byte>)
    ensures DecodeOnePass(expected, buf) == DecodeTwoPass(expected, buf)
  {
    if |buf| >= HEADER_SIZE && HeaderLen(buf) <= |buf| - HEADER_SIZE && HeaderLen(buf) >= NAME_LEN_SIZE {
      var n := HeaderLen(buf);
      SliceOfSlice(buf, HEADER_SIZE, n, 0, NAME_LEN_SIZE);
      var nameLen := BytesU16(buf[HEADER_SIZE..HEADER_SIZE + NAME_LEN_SIZE]);
      if n >= NAME_LEN_SIZE + nameLen {
        SliceOfSlice(buf, HEADER_SIZE, n, NAME_LEN_SIZE, nameLen);
        SliceOfSlice(buf, HEADER_SIZE, n, NAME_LEN_SIZE + nameLen, n - NAME_LEN_SIZE - nameLen);
      }
    }
  }

  lemma PrefixParses(name: seq<byte>, message: seq<byte>)
    ensures var body := Prefix(name) + message;
      && |body| == NAME_LEN_SIZE + NameLen(name) + |message|
      && BytesU16(body[..NAME_LEN_SIZE]) == NameLen(name)
      && body[NAME_LEN_SIZE..NAME_LEN_SIZE + NameLen(name)] == name[..NameLen(name)]
      && body[NAME_LEN_SIZE + NameLen(name)..] == message
  {
    var body := Prefix(name) + message;
    assert body[..NAME_LEN_SIZE] == LittleEndian(NameLen(name), NAME_LEN_SIZE);
    Pow2Large();
    ValueRoundTrip(NameLen(name), NAME_LEN_SIZE);
  }

  /**
    A frame encoded for a type comes back, and only for that type's name, exactly
    when the name is shorter than 2^16 bytes: the u16 length cuts longer names off.
   */
  lemma RoundTripIff(name: seq<byte>, message: seq<byte>, seqNo: u32, rest: seq<byte>)
    requires FrameOk(Encoded(name, message, seqNo))
    ensures DecodeOnePass(name, FrameBytes(Encoded(name, message, seqNo)) + rest) == Some((message, seqNo))
      <==> |name| < TWO_16
  {
    var f := Encoded(name, message, seqNo);
    var buf := FrameBytes(f) + rest;
    ParsersAgree(name, buf);
    DecodeIff(buf, f);
    PrefixParses(name, message);
    if |name| < TWO_16 {
      assert NameLen(name) == |name|;
      assert name[..NameLen(name)] == name;
    } else {
      assert |name[..NameLen(name)]| < |name|;
    }
  }

  /**
    What Send and SendBatch write: name length, name, and the message if there is
    one. The message goes through SerializeToBatch, whose effect is that of TryWrite.
   */
  function Pieces(name: seq<byte>, message: seq<byte>): seq<seq<byte>> {
    [LittleEndian(NameLen(name), NAME_LEN_SIZE), name[..NameLen(name)]] + if message == [] then [] else [message]
  }

  /**
    Send and SendBatch: the frame goes in as a whole exactly when it fits the free
    space and both name and message fit a single write; otherwise nothing does.
   */
  lemma SendIff(name: seq<byte>, message: seq<byte>, cap: nat, w: nat, snap: nat, seqNo: u32)
    requires w <= snap + cap && 1024 <= cap && FrameOk(Encoded(name, message, seqNo))
    ensures var f := Encoded(name, message, seqNo);
      Attempt(cap, w, snap, |f.body|, seqNo, Copies(Pieces(name, message)), false) ==
      if w + FrameSize(f) <= snap + cap && NameLen(name) <= cap / 2 && |message| <= cap / 2
      then Some(FrameBytes(f)) else None
  {
    var pieces := Pieces(name, message);
    PiecesJoin(name, message);
    assert AllSmall(pieces, cap / 2) <==> NameLen(name) <= cap / 2 && |message| <= cap / 2 by {
      assert pieces[0] == LittleEndian(NameLen(name), NAME_LEN_SIZE) && pieces[1] == name[..NameLen(name)];
      assert message != [] ==> pieces[2] == message;
    }
    AttemptPieces(cap, w, snap, seqNo, pieces);
  }

  lemma PiecesJoin(name: seq<byte>, message: seq<byte>)
    ensures Joined(Pieces(name, message)) == Prefix(name) + message
  {
    var a, b := LittleEndian(NameLen(name), NAME_LEN_SIZE), name[..NameLen(name)];
    var last := if message == [] then [] else [message];
    var pieces := Pieces(name, message);
    assert pieces[1..] == [b] + last && ([b] + last)[1..] == last;
    assert Joined(last) == message by {
      if message != [] {
        assert last[1..] == [] && message + [] == message;
      }
    }
    assert a + (b + message) == (a + b) + message;
  }
}
