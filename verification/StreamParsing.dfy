/**
  What a codec makes of a byte stream, independent of how the stream arrives.

  `Parse` is the reference: the whole stream is there from the start. The drain
  loop of a connection sees ever longer prefixes of it, cut anywhere and at any
  time; for a codec whose definite answers do not change when bytes are appended
  the two decode the same packets.
 */
module StreamParsing {
  import opened RingMath

  /** A codec's answer: the return value, `*size`, and the package. */
  datatype Answer<+P> = Answer(len: int, out: nat, pkg: P)

  const NEED_MORE := 0
  const DISCONNECT := -1
  const SKIP := -2

  datatype Item<+P> = Heartbeat | Message(pkg: P)

  /** What the drain loop does with an answer. */
  datatype Verdict<+P> = Fail | Wait | Take(n: nat, item: Item<P>)

  function Judge<P>(a: Answer<P>, buflen: nat): (v: Verdict<P>)
    ensures v.Take? ==> 0 < v.n <= buflen
  {
    if a.len == DISCONNECT then Fail
    else if a.len == NEED_MORE then Wait
    else if a.len == SKIP then (if a.out == 0 || a.out > buflen then Fail else Take(a.out, Heartbeat))
    else if a.len < 0 then Fail
    else if a.len > buflen then Fail
    else Take(a.len, Message(a.pkg))
  }

  /** One turn of the loop on the bytes visible: nothing there, or the codec's verdict. */
  function Look<P>(decode: seq<byte> -> Answer<P>, visible: seq<byte>): (v: Verdict<P>)
    ensures v.Take? ==> 0 < v.n <= |visible|
  {
    if visible == [] then Wait else Judge(decode(visible), |visible|)
  }

  /** The packets of a stream, the bytes they take, and whether an error follows them. */
  datatype Parsed<+P> = Parsed(items: seq<Item<P>>, used: nat, failed: bool)

  function Parse<P>(decode: seq<byte> -> Answer<P>, s: seq<byte>): (r: Parsed<P>)
    ensures r.used <= |s|
    decreases |s|
  {
    match Look(decode, s)
    case Fail => Parsed([], 0, true)
    case Wait => Parsed([], 0, false)
    case Take(n, item) =>
      var rest := Parse(decode, s[n..]);
      Parsed([item] + rest.items, n + rest.used, rest.failed)
  }

  /** A definite answer stays the same when bytes are appended. */
  ghost predicate PrefixStable<P(!new)>(decode: seq<byte> -> Answer<P>) {
    forall s, t :: !Look(decode, s).Wait? ==> Look(decode, s + t) == Look(decode, s)
  }

  /** The reader's side of a connection: bytes consumed, packets decoded, error seen. */
  datatype Progress<+P> = Progress(pos: nat, items: seq<Item<P>>, failed: bool)

  /** One turn of any drain call, with the stream visible up to `visible`. */
  function Turn<P>(decode: seq<byte> -> Answer<P>, stream: seq<byte>, p: Progress<P>, visible: nat): Progress<P> {
    if p.failed || !(p.pos <= visible <= |stream|) then p
    else
      match Look(decode, stream[p.pos..visible])
      case Fail => p.(failed := true)
      case Wait => p
      case Take(n, item) => Progress(p.pos + n, p.items + [item], false)
  }

  /** Any number of turns, in any number of drain calls, with any visibility. */
  function Turns<P>(decode: seq<byte> -> Answer<P>, stream: seq<byte>, p: Progress<P>, schedule: seq<nat>): Progress<P>
    decreases |schedule|
  {
    if schedule == [] then p
    else Turns(decode, stream, Turn(decode, stream, p, schedule[0]), schedule[1..])
  }

  /** Progress so far, followed by a parse of the rest, is a parse of the whole. */
  ghost predicate OnTrack<P>(decode: seq<byte> -> Answer<P>, stream: seq<byte>, p: Progress<P>) {
    && p.pos <= |stream|
    && var whole, rest := Parse(decode, stream), Parse(decode, stream[p.pos..]);
       && p.items + rest.items == whole.items
       && p.pos + rest.used == whole.used
       && rest.failed == whole.failed
       && (p.failed ==> rest == Parsed([], 0, true))
  }

  lemma TakeOnTrack<P>(decode: seq<byte> -> Answer<P>, stream: seq<byte>, p: Progress<P>, n: nat, item: Item<P>)
    requires OnTrack(decode, stream, p) && !p.failed && Look(decode, stream[p.pos..]) == Take(n, item)
    ensures OnTrack(decode, stream, Progress(p.pos + n, p.items + [item], false))
  {
    assert stream[p.pos + n..] == stream[p.pos..][n..];
    var tail := Parse(decode, stream[p.pos..][n..]);
    assert p.items + ([item] + tail.items) == (p.items + [item]) + tail.items;
  }

  lemma TurnOnTrack<P(!new)>(decode: seq<byte> -> Answer<P>, stream: seq<byte>, p: Progress<P>, visible: nat)
    requires PrefixStable(decode) && OnTrack(decode, stream, p)
    ensures OnTrack(decode, stream, Turn(decode, stream, p, visible))
  {
    if !p.failed && p.pos <= visible <= |stream| {
      var v := Look(decode, stream[p.pos..visible]);
      if !v.Wait? {
        SeenIsAll(decode, stream, p.pos, visible);
      }
      if v.Take? {
        TakeOnTrack(decode, stream, p, v.n, v.item);
      }
    }
  }

  /** A definite answer to the bytes seen is the answer to all of them. */
  lemma SeenIsAll<P(!new)>(decode: seq<byte> -> Answer<P>, stream: seq<byte>, pos: nat, visible: nat)
    requires PrefixStable(decode) && pos <= visible <= |stream|
    requires !Look(decode, stream[pos..visible]).Wait?
    ensures Look(decode, stream[pos..]) == Look(decode, stream[pos..visible])
  {
    assert stream[pos..] == stream[pos..visible] + stream[visible..];
  }

  lemma {:induction false} TurnsOnTrack<P(!new)>(
      decode: seq<byte> -> Answer<P>, stream: seq<byte>, p: Progress<P>, schedule: seq<nat>)
    requires PrefixStable(decode) && OnTrack(decode, stream, p)
    ensures OnTrack(decode, stream, Turns(decode, stream, p, schedule))
    decreases |schedule|
  {
    if schedule != [] {
      TurnOnTrack(decode, stream, p, schedule[0]);
      TurnsOnTrack(decode, stream, Turn(decode, stream, p, schedule[0]), schedule[1..]);
    }
  }

  /**
    Independence of chunking: however the stream was cut up and whenever the drain
    loop ran, the packets decoded are a prefix of those of one parse of the whole
    stream; once a turn with everything visible makes no progress they are exactly
    those, and the error, if any, is the same.
   */
  lemma ChunkingIndependent<P(!new)>(decode: seq<byte> -> Answer<P>, stream: seq<byte>, schedule: seq<nat>)
    requires PrefixStable(decode)
    ensures var p, whole := Turns(decode, stream, Progress(0, [], false), schedule), Parse(decode, stream);
      && p.items <= whole.items && p.pos <= whole.used
      && (Turn(decode, stream, p, |stream|) == p ==>
            p.items == whole.items && p.pos == whole.used && p.failed == whole.failed)
  {
    var start: Progress<P> := Progress(0, [], false);
    assert stream[0..] == stream;
    assert OnTrack(decode, stream, start);
    TurnsOnTrack(decode, stream, start, schedule);
    var p := Turns(decode, stream, start, schedule);
    if Turn(decode, stream, p, |stream|) == p {
      StuckMeansDone(decode, stream, p);
    }
  }

  /** When a turn with everything visible moves nothing, all that can be decoded has been. */
  lemma {:induction false} StuckMeansDone<P>(decode: seq<byte> -> Answer<P>, stream: seq<byte>, p: Progress<P>)
    requires OnTrack(decode, stream, p) && Turn(decode, stream, p, |stream|) == p
    ensures var whole := Parse(decode, stream); p == Progress(whole.used, whole.items, whole.failed)
  {
    assert stream[p.pos..|stream|] == stream[p.pos..];
    assert p.failed || Look(decode, stream[p.pos..]).Wait?;
  }
}
