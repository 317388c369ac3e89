/**
  The notification handshake between a writer and an event-driven reader.

  The writer publishes bytes and then bumps the reader's eventfd; the reader,
  parked in poll, clears the eventfd and only then drains the ring, turn by turn,
  until nothing decodable is left. Loads of write_pos may be stale: a load returns
  any value at or beyond what the reader already knows. Reading the eventfd tells
  it at least what had been published before the notifications it collects.
 */
module Wakeup {
  import opened RingMath
  import opened StreamParsing

  datatype Writer = Idle | MustNotify
  datatype Reader = Parked | Draining | Gone

  datatype State = State(
    stream: seq<byte>,   // bytes published
    counter: nat,        // eventfd counter
    announced: nat,      // length of the stream at the last notification
    writer: Writer,
    reader: Reader,
    pos: nat,            // bytes consumed
    known: nat,          // write_pos the reader knows of
    seen: nat)           // write_pos its last turn worked with

  datatype Step =
    | Publish(bytes: seq<byte>)
    | Notify
    | Wake
    | Turn(visible: nat)

  predicate Enabled(s: State, step: Step) {
    match step
    case Publish(bytes) => bytes != []
    case Notify => s.writer.MustNotify?
    case Wake => s.reader.Parked? && s.counter > 0
    case Turn(visible) => s.reader.Draining? && s.known <= visible <= |s.stream| && s.pos <= visible
  }

  function Apply<P>(decode: seq<byte> -> Answer<P>, s: State, step: Step): State
    requires Enabled(s, step)
  {
    match step
    case Publish(bytes) => s.(stream := s.stream + bytes, writer := MustNotify)
    case Notify => s.(counter := s.counter + 1, announced := |s.stream|, writer := Idle)
    case Wake =>
      s.(counter := 0, known := if s.known < s.announced then s.announced else s.known, reader := Draining)
    case Turn(visible) =>
      var t := s.(known := visible, seen := visible);
      match Look(decode, s.stream[s.pos..visible])
      case Fail => t.(reader := Gone)
      case Wait => t.(reader := Parked)
      case Take(n, _) => t.(pos := s.pos + n)
  }

  predicate Init(s: State) {
    s == State([], 0, 0, Idle, Parked, 0, 0, 0)
  }

  /** Every publication not yet announced will be; every announcement not yet collected shows. */
  ghost predicate Inv<P>(decode: seq<byte> -> Answer<P>, s: State) {
    && s.pos <= s.known <= |s.stream| && s.announced <= |s.stream| && s.seen <= s.known
    && (s.writer.Idle? ==> s.announced == |s.stream|)
    && (s.counter == 0 ==> s.announced <= s.known)
    && (s.reader.Parked? ==>
          s.seen == s.known && s.pos <= s.seen && Look(decode, s.stream[s.pos..s.seen]).Wait?)
    && (s.reader.Gone? ==> s.pos <= s.seen && Look(decode, s.stream[s.pos..s.seen]).Fail?)
  }

  lemma StepInv<P>(decode: seq<byte> -> Answer<P>, s: State, step: Step)
    requires Inv(decode, s) && Enabled(s, step)
    ensures Inv(decode, Apply(decode, s, step))
  {
    if step.Publish? && !s.reader.Draining? {
      assert (s.stream + step.bytes)[s.pos..s.seen] == s.stream[s.pos..s.seen];
    }
  }

  ghost predicate Reaches<P>(decode: seq<byte> -> Answer<P>, s: State, steps: seq<Step>, t: State)
    decreases |steps|
  {
    if steps == [] then s == t
    else Enabled(s, steps[0]) && Reaches(decode, Apply(decode, s, steps[0]), steps[1..], t)
  }

  lemma {:induction false} RunInv<P>(decode: seq<byte> -> Answer<P>, s: State, steps: seq<Step>, t: State)
    requires Inv(decode, s) && Reaches(decode, s, steps, t)
    ensures Inv(decode, t)
    decreases |steps|
  {
    if steps != [] {
      StepInv(decode, s, steps[0]);
      RunInv(decode, Apply(decode, s, steps[0]), steps[1..], t);
    }
  }

  lemma InitInv<P>(decode: seq<byte> -> Answer<P>, s: State)
    requires Init(s)
    ensures Inv(decode, s)
  {
    assert s.stream[s.pos..s.seen] == [];
  }

  /**
    No lost wakeup: in every state of every run, if the reader is parked with an
    empty eventfd and the writer is not between publishing and notifying, then the
    reader's last turn saw everything published, and nothing of it is decodable.
    So whenever a packet is waiting for a parked reader, a wakeup is on its way. A
    reader is gone only for a protocol error in what it saw.
   */
  lemma NoLostWakeup<P>(decode: seq<byte> -> Answer<P>, s: State, steps: seq<Step>, t: State)
    requires Init(s) && Reaches(decode, s, steps, t)
    ensures t.pos <= |t.stream|
    ensures t.reader.Parked? && t.counter == 0 && t.writer.Idle? ==>
      t.seen == |t.stream| && Look(decode, t.stream[t.pos..]).Wait?
    ensures t.reader.Parked? && !Look(decode, t.stream[t.pos..]).Wait? ==> t.counter > 0 || t.writer.MustNotify?
    ensures t.reader.Gone? ==> t.pos <= t.seen <= |t.stream| && Look(decode, t.stream[t.pos..t.seen]).Fail?
  {
    InitInv(decode, s);
    RunInv(decode, s, steps, t);
    assert t.stream[t.pos..|t.stream|] == t.stream[t.pos..];
  }

  // ---------------------------------------------------------------------
  // The wakeup does its work
  // ---------------------------------------------------------------------

  ghost predicate NoPublish(steps: seq<Step>) { forall i :: 0 <= i < |steps| ==> !steps[i].Publish? }

  /** What a reader that has come to rest has done since it was at `pos`. */
  ghost predicate CaughtUp<P>(decode: seq<byte> -> Answer<P>, stream: seq<byte>, pos: nat, u: State)
    requires pos <= |stream|
  {
    var p := Parse(decode, stream[pos..]);
    u.stream == stream && u.pos == pos + p.used && u.reader == if p.failed then Gone else Parked
  }

  lemma ReachesCons<P>(decode: seq<byte> -> Answer<P>, s: State, step: Step, rest: seq<Step>, t: State)
    requires Enabled(s, step) && Reaches(decode, Apply(decode, s, step), rest, t) && !step.Publish? && NoPublish(rest)
    ensures Reaches(decode, s, [step] + rest, t) && NoPublish([step] + rest)
  {
    assert ([step] + rest)[1..] == rest;
  }

  lemma CaughtUpMore<P>(decode: seq<byte> -> Answer<P>, stream: seq<byte>, pos: nat, next: nat, u: State)
    requires pos <= |stream| && Look(decode, stream[pos..]).Take? && next == pos + Look(decode, stream[pos..]).n
    requires CaughtUp(decode, stream, next, u)
    ensures CaughtUp(decode, stream, pos, u)
  {
    assert stream[pos..][next - pos..] == stream[next..];
  }

  /** A draining reader can take all the packets there are. */
  lemma {:induction false} DrainOut<P>(decode: seq<byte> -> Answer<P>, s: State) returns (steps: seq<Step>, u: State)
    requires s.reader.Draining? && s.pos <= |s.stream| && s.known <= |s.stream|
    ensures Reaches(decode, s, steps, u) && NoPublish(steps) && CaughtUp(decode, s.stream, s.pos, u)
    decreases |s.stream| - s.pos
  {
    var turn := Turn(|s.stream|);
    var m := Apply(decode, s, turn);
    assert s.stream[s.pos..|s.stream|] == s.stream[s.pos..];
    var rest;
    if Look(decode, s.stream[s.pos..]).Take? {
      rest, u := DrainOut(decode, m);
      CaughtUpMore(decode, s.stream, s.pos, m.pos, u);
    } else {
      rest, u := [], m;
    }
    ReachesCons(decode, s, turn, rest, u);
    steps := [turn] + rest;
  }

  lemma WakeAndDrain<P>(decode: seq<byte> -> Answer<P>, s: State) returns (steps: seq<Step>, u: State)
    requires Inv(decode, s) && s.reader.Parked? && s.counter > 0
    ensures Reaches(decode, s, steps, u) && NoPublish(steps) && CaughtUp(decode, s.stream, s.pos, u)
  {
    var rest;
    rest, u := DrainOut(decode, Apply(decode, s, Wake));
    ReachesCons(decode, s, Wake, rest, u);
    steps := [Wake] + rest;
  }

  /**
    From every reachable state in which the reader has not given up, without anything
    more being published, it can be woken if need be and come to rest with exactly
    the packets consumed that one parse of the rest of the stream finds, or gone for
    the error that parse finds.
   */
  lemma WakeupDelivers<P>(decode: seq<byte> -> Answer<P>, s: State, run: seq<Step>, t: State)
      returns (steps: seq<Step>, u: State)
    requires Init(s) && Reaches(decode, s, run, t) && !t.reader.Gone?
    ensures t.pos <= |t.stream|
    ensures Reaches(decode, t, steps, u) && NoPublish(steps) && CaughtUp(decode, t.stream, t.pos, u)
  {
    InitInv(decode, s);
    RunInv(decode, s, run, t);
    NoLostWakeup(decode, s, run, t);
    if t.reader.Draining? {
      steps, u := DrainOut(decode, t);
    } else if t.counter > 0 {
      steps, u := WakeAndDrain(decode, t);
    } else if t.writer.MustNotify? {
      StepInv(decode, t, Notify);
      var rest;
      rest, u := WakeAndDrain(decode, Apply(decode, t, Notify));
      ReachesCons(decode, t, Notify, rest, u);
      steps := [Notify] + rest;
    } else {
      steps, u := [], t;
    }
  }
}
