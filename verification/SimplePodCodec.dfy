/**
  SimplePodCodec: `[tag u32][T bytes]` packets. One registry finds the tag of a
  type, the other the type of a tag; both are keyed maps, so a type registered
  later under the same tag takes the tag over.
 */
module SimplePodCodec {
  import opened Basics
  import opened RingMath
  import opened Memory
  import opened Framing
  import opened StreamParsing

  datatype TypeInfo = TypeInfo(id: nat, tag: u32, size: nat)

  /** A trivially copyable type with its static tag; packet lengths are returned as int32. */
  type PodType = t: TypeInfo | t.size + TAG_SIZE < 0x8000_0000 witness TypeInfo(0, 0, 0)

  /** A std::any that holds the bytes of a value of such a type. */
  datatype Any = Any(ty: PodType, bytes: seq<byte>)
  {
    predicate Valid() { |bytes| == ty.size }
  }

  /** TagOf() and OpsOf(); the operations of a tag are those of the type they were made for. */
  datatype Registry = Registry(tagOf: map<PodType, u32>, opsOf: map<u32, PodType>)

  function Register(reg: Registry, ty: PodType): Registry {
    Registry(reg.tagOf[ty := ty.tag], reg.opsOf[ty.tag := ty])
  }

  /** The registry after a sequence of RegisterPod calls. */
  function Registered(history: seq<PodType>): Registry {
    if history == [] then Registry(map[], map[])
    else Register(Registered(history[..|history| - 1]), history[|history| - 1])
  }

  datatype Encoding = Refused | TooSmall(need: nat) | Encoded(bytes: seq<byte>)

  /** What Encode does with a buffer of `buflen` bytes. */
  function EncodeResult(reg: Registry, v: Any, buflen: nat): Encoding {
    if v.ty !in reg.tagOf || reg.tagOf[v.ty] !in reg.opsOf then Refused
    else
      var ops := reg.opsOf[reg.tagOf[v.ty]];
      if buflen < TAG_SIZE + ops.size then TooSmall(TAG_SIZE + ops.size)
      else if ops != v.ty then Refused
      else Encoded(U32Bytes(reg.tagOf[v.ty]) + v.bytes)
  }

  function Decode(reg: Registry, s: seq<byte>): Answer<Option<Any>> {
    if |s| < TAG_SIZE then Answer(NEED_MORE, 0, None)
    else
      var tag := BytesU32(s[..TAG_SIZE]);
      if tag !in reg.opsOf then Answer(DISCONNECT, 0, None)
      else
        var need := TAG_SIZE + reg.opsOf[tag].size;
        if |s| < need then Answer(NEED_MORE, 0, None)
        else Answer(need, 0, Some(Any(reg.opsOf[tag], s[TAG_SIZE..need])))
  }

  /** The type registered last under a tag. */
  function LastUnder(history: seq<PodType>, tag: u32): Option<PodType> {
    if history == [] then None
    else
      var last := history[|history| - 1];
      if last.tag == tag then Some(last) else LastUnder(history[..|history| - 1], tag)
  }

  /**
    What Encode is to do, said of the RegisterPod calls made so far: a type never
    registered is refused; otherwise the type that holds the tag now decides the
    size asked for, and only a value of that type is encoded.
   */
  function Expected(history: seq<PodType>, v: Any, buflen: nat): Encoding {
    var holder := LastUnder(history, v.ty.tag);
    if v.ty !in history || holder.None? then Refused
    else if buflen < TAG_SIZE + holder.value.size then TooSmall(TAG_SIZE + holder.value.size)
    else if holder.value != v.ty then Refused
    else Encoded(U32Bytes(v.ty.tag) + v.bytes)
  }

  /** A value of this type can be encoded after these RegisterPod calls. */
  predicate Encodable(history: seq<PodType>, ty: PodType) { LastUnder(history, ty.tag) == Some(ty) }

  /** What Encode writes for a value, given any buffer that is large enough. */
  function Packet(v: Any): seq<byte> { U32Bytes(v.ty.tag) + v.bytes }

  class Codec {
    var reg: Registry
    /** The RegisterPod calls so far. */
    ghost var history: seq<PodType>

    ghost predicate Valid()
      reads this
    {
      reg == Registered(history)
    }

    constructor ()
      ensures Valid() && history == []
    {
      reg := Registry(map[], map[]);
      history := [];
    }

    /** From now on the type can be encoded; the others of its tag cannot, and no other tag is affected. */
    method RegisterPod(ty: PodType)
      requires Valid()
      modifies this
      ensures Valid() && history == old(history) + [ty]
      ensures Encodable(history, ty)
      ensures forall other: PodType :: other.tag == ty.tag && other != ty ==> !Encodable(history, other)
      ensures forall other: PodType :: other.tag != ty.tag ==> Encodable(history, other) == old(Encodable(history, other))
    {
      reg := Registry(reg.tagOf[ty := ty.tag], reg.opsOf[ty.tag := ty]);
      history := history + [ty];
      assert history[..|history| - 1] == old(history);
    }

    method Encode(v: Any, buf: array<byte>) returns (len: int, size: nat)
      requires Valid() && v.Valid()
      modifies buf
      ensures match Expected(history, v, buf.Length)
        case Refused => len == DISCONNECT
        case TooSmall(need) => len == NEED_MORE && size == need > buf.Length && buf[..] == old(buf[..])
        case Encoded(bytes) => len == |bytes| && 0 < len <= buf.Length && buf[..len] == bytes
    {
      size := 0;
      EncodesAsExpected(history, v, buf.Length);
      if v.ty !in reg.tagOf { return DISCONNECT, size; }
      var tag := reg.tagOf[v.ty];
      if tag !in reg.opsOf { return DISCONNECT, size; }
      var need := TAG_SIZE + reg.opsOf[tag].size;
      if buf.Length < need { return NEED_MORE, need; }
      MemCopy(buf, 0, U32Bytes(tag));
      if reg.opsOf[tag] != v.ty { return DISCONNECT, size; }
      assert buf[..TAG_SIZE] == U32Bytes(tag);
      MemAppend(buf, U32Bytes(tag), v.bytes);
      len := need;
    }
  }

  // ---------------------------------------------------------------------
  // Properties
  // ---------------------------------------------------------------------

  /** Whatever Encode produced decodes to the same value and length, whatever follows it. */
  lemma RoundTrip(reg: Registry, v: Any, buflen: nat, rest: seq<byte>)
    requires v.Valid() && EncodeResult(reg, v, buflen).Encoded?
    ensures var bytes := EncodeResult(reg, v, buflen).bytes;
      Decode(reg, bytes + rest) == Answer(|bytes|, 0, Some(v))
  {
    var tag := reg.tagOf[v.ty];
    var s := U32Bytes(tag) + v.bytes + rest;
    assert s[..TAG_SIZE] == U32Bytes(tag);
    U32RoundTrip(tag);
    assert s[TAG_SIZE..TAG_SIZE + v.ty.size] == v.bytes;
  }

  lemma {:induction false} RegisteredTags(history: seq<PodType>)
    ensures forall ty :: ty in Registered(history).tagOf ==> Registered(history).tagOf[ty] == ty.tag
    ensures forall ty :: ty in history <==> ty in Registered(history).tagOf
  {
    if history != [] {
      var n := |history| - 1;
      RegisteredTags(history[..n]);
      assert forall ty :: ty in history <==> ty in history[..n] || ty == history[n];
    }
  }

  lemma {:induction false} RegisteredOps(history: seq<PodType>)
    ensures forall tag :: tag in Registered(history).opsOf <==> LastUnder(history, tag).Some?
    ensures forall tag :: tag in Registered(history).opsOf ==>
      LastUnder(history, tag) == Some(Registered(history).opsOf[tag])
  {
    if history != [] {
      RegisteredOps(history[..|history| - 1]);
    }
  }

  lemma RegisteredLooksUp(history: seq<PodType>)
    ensures forall ty :: ty in Registered(history).tagOf ==> Registered(history).tagOf[ty] == ty.tag
    ensures forall ty :: ty in history <==> ty in Registered(history).tagOf
    ensures forall tag :: tag in Registered(history).opsOf <==> LastUnder(history, tag).Some?
    ensures forall tag :: tag in Registered(history).opsOf ==>
      LastUnder(history, tag) == Some(Registered(history).opsOf[tag])
  {
    RegisteredTags(history);
    RegisteredOps(history);
  }

  lemma {:induction false} LastUnderIsMember(history: seq<PodType>, tag: u32)
    ensures LastUnder(history, tag).Some? ==>
      LastUnder(history, tag).value in history && LastUnder(history, tag).value.tag == tag
  {
    if history != [] {
      LastUnderIsMember(history[..|history| - 1], tag);
    }
  }

  /** The two maps, looked up one after the other, do what the history calls for. */
  lemma EncodesAsExpected(history: seq<PodType>, v: Any, buflen: nat)
    ensures EncodeResult(Registered(history), v, buflen) == Expected(history, v, buflen)
  {
    RegisteredLooksUp(history);
  }

  /**
    Of the types registered under one tag exactly the last can be encoded; with the
    round trip above, no value is ever decoded as a value of another type.
   */
  lemma EncodableIff(history: seq<PodType>, v: Any, buflen: nat)
    requires v.Valid()
    ensures EncodeResult(Registered(history), v, buflen).Encoded? <==>
      Encodable(history, v.ty) && TAG_SIZE + v.ty.size <= buflen
  {
    EncodesAsExpected(history, v, buflen);
    LastUnderIsMember(history, v.ty.tag);
  }

  /** The bytes start with the packet of this value, whose type holds its tag. */
  ghost predicate Front(history: seq<PodType>, s: seq<byte>, v: Any) {
    v.Valid() && Encodable(history, v.ty) && Packet(v) <= s
  }

  /** The bytes are the beginning of such a packet, and not all of it. */
  ghost predicate Part(history: seq<PodType>, s: seq<byte>, v: Any) {
    v.Valid() && Encodable(history, v.ty) && s <= Packet(v) && |s| < |Packet(v)|
  }

  /** The tag and the type that a value's packet, whole or in part, makes Decode look up. */
  lemma TagRead(history: seq<PodType>, s: seq<byte>, v: Any)
    requires |s| >= TAG_SIZE && (Front(history, s, v) || Part(history, s, v))
    ensures var tag := BytesU32(s[..TAG_SIZE]);
      tag == v.ty.tag && tag in Registered(history).opsOf && Registered(history).opsOf[tag] == v.ty
  {
    assert s[..TAG_SIZE] == U32Bytes(v.ty.tag) by {
      assert Packet(v)[..TAG_SIZE] == U32Bytes(v.ty.tag);
      assert Packet(v) <= s ==> s[..TAG_SIZE] == s[..|Packet(v)|][..TAG_SIZE];
      assert s <= Packet(v) ==> s[..TAG_SIZE] == Packet(v)[..|s|][..TAG_SIZE];
    }
    U32RoundTrip(v.ty.tag);
    RegisteredLooksUp(history);
  }

  /** A known tag makes the bytes the front, or a part, of a packet of the type that holds it. */
  lemma TagKnown(history: seq<PodType>, s: seq<byte>) returns (v: Any)
    requires |s| >= TAG_SIZE && BytesU32(s[..TAG_SIZE]) in Registered(history).opsOf
    ensures v.ty == Registered(history).opsOf[BytesU32(s[..TAG_SIZE])]
    ensures if |s| < TAG_SIZE + v.ty.size then Part(history, s, v) else Front(history, s, v)
  {
    var tag := BytesU32(s[..TAG_SIZE]);
    var ty := Registered(history).opsOf[tag];
    RegisteredLooksUp(history);
    LastUnderIsMember(history, tag);
    U32Unique(s[..TAG_SIZE]);
    var need := TAG_SIZE + ty.size;
    if |s| < need {
      v := Any(ty, s[TAG_SIZE..] + seq(need - |s|, _ => 0));
      assert Packet(v)[..|s|] == s;
    } else {
      v := Any(ty, s[TAG_SIZE..need]);
      assert s[..need] == Packet(v);
    }
  }

  /**
    Decode's answer, by what the bytes are: a value comes out exactly when they start
    with its packet; it asks for more exactly when they are too few for a tag or part
    of a packet; and it disconnects exactly when they hold a tag and are neither.
   */
  lemma DecodeExact(history: seq<PodType>, s: seq<byte>, v: Any)
    ensures var a := Decode(Registered(history), s);
      && (Front(history, s, v) <==> a == Answer(|Packet(v)|, 0, Some(v)) && v.Valid() && a.len > 0)
      && (a.len == NEED_MORE <==> |s| < TAG_SIZE || exists w :: Part(history, s, w))
      && (a.len == DISCONNECT <==> |s| >= TAG_SIZE && forall w :: !Part(history, s, w) && !Front(history, s, w))
  {
    if |s| >= TAG_SIZE {
      forall w | Front(history, s, w) || Part(history, s, w)
        ensures var tag := BytesU32(s[..TAG_SIZE]);
          tag == w.ty.tag && tag in Registered(history).opsOf && Registered(history).opsOf[tag] == w.ty
      {
        TagRead(history, s, w);
      }
      if Front(history, s, v) {
        assert s[TAG_SIZE..|Packet(v)|] == s[..|Packet(v)|][TAG_SIZE..] == v.bytes;
      }
      if BytesU32(s[..TAG_SIZE]) in Registered(history).opsOf {
        var w := TagKnown(history, s);
        assert Front(history, s, w) ==> w.bytes == s[..|Packet(w)|][TAG_SIZE..] == s[TAG_SIZE..|Packet(w)|];
      }
    }
  }

  /** The decoder as the drain loop calls it. */
  function Decoder(reg: Registry): seq<byte> -> Answer<Option<Any>> { (s: seq<byte>) => Decode(reg, s) }

  /** Appending bytes never changes a definite answer: the drain loop may cut the stream anywhere. */
  lemma DecoderIsPrefixStable(reg: Registry)
    ensures PrefixStable(Decoder(reg))
  {
    forall s, t | !Look(Decoder(reg), s).Wait?
      ensures Look(Decoder(reg), s + t) == Look(Decoder(reg), s)
    {
      assert |s| >= TAG_SIZE;
      assert (s + t)[..TAG_SIZE] == s[..TAG_SIZE];
      var tag := BytesU32(s[..TAG_SIZE]);
      if tag in reg.opsOf {
        var need := TAG_SIZE + reg.opsOf[tag].size;
        assert |s| >= need;
        assert (s + t)[TAG_SIZE..need] == s[TAG_SIZE..need];
      }
    }
  }
}
