/**
  Draining as a function: what a connection makes of the bytes it sees, and what
  that adds up to over any number of drain calls.

  The codec is abstract. What the application's message callback does to its
  connection is a script: the k-th message dispatched has reaction `reactions(k)`.
 */
module Draining {
  import opened Basics
  import opened RingMath
  import opened StreamParsing
  import opened ConnStates

  /** What a message callback may do to its own connection. */
  datatype Reaction = Nothing | CallClose | CallRemove | CallVerify(succ: bool)

  function React(s: ConnState, r: Reaction): ConnState {
    match r
    case Nothing => s
    case CallClose => AfterClose(s)
    case CallRemove => Closed
    case CallVerify(succ) => AfterVerify(s, succ)
  }

  /** The reactions spelled out: what each leaves of a connection that is open. */
  lemma ReactTable(s: ConnState)
    requires s == Verifying || s == Established
    ensures React(s, Nothing) == s && React(s, CallClose) == Closing && React(s, CallRemove) == Closed
    ensures React(s, CallVerify(true)) == Established && React(s, CallVerify(false)) == Closing
  {}

  /** The application: whether a message callback is set, and what it does. */
  datatype App = App(hasCb: bool, reactions: nat -> Reaction)

  /** Whether a packet is a message that reaches the callback. */
  predicate Dispatched<P>(hasCb: bool, state: ConnState, item: Item<P>) { item.Message? && hasCb && Open(state) }

  /** The state after the packet has been dealt with, k messages having been dispatched before. */
  function StateAfter<P>(app: App, state: ConnState, k: nat, item: Item<P>): ConnState {
    if Dispatched(app.hasCb, state, item) then React(state, app.reactions(k)) else state
  }

  /** Messages and heartbeats taken, bytes they used, messages handed to the callback. */
  datatype Tally<P> = Tally(count: nat, beats: nat, used: nat, given: seq<P>)

  function Add<P>(t: Tally<P>, n: nat, item: Item<P>, dispatched: bool): Tally<P> {
    match item
    case Heartbeat => t.(beats := t.beats + 1, used := t.used + n)
    case Message(pkg) => Tally(t.count + 1, t.beats, t.used + n, if dispatched then t.given + [pkg] else t.given)
  }

  datatype Drained<P> = Drained(tally: Tally<P>, failed: bool, state: ConnState)

  /** The drain loop on the bytes `s`, continuing the count in `t`. */
  function Drain<P>(decode: seq<byte> -> Answer<P>, s: seq<byte>, state: ConnState, app: App, t: Tally<P>): Drained<P>
    decreases |s|
  {
    match Look(decode, s)
    case Fail => Drained(t, true, state)
    case Wait => Drained(t, false, state)
    case Take(n, item) =>
      Drain(decode, s[n..], StateAfter(app, state, |t.given|, item), app,
            Add(t, n, item, Dispatched(app.hasCb, state, item)))
  }

  /**
    What a call does with the codec's answer to the bytes in front of it, by the
    return codes: 0 ends the call; -1, any other negative number, a length or a
    heartbeat size beyond the bytes and a heartbeat of no bytes fail it, with nothing
    consumed; -2 takes a heartbeat off and counts no message; a positive length takes
    a message off, counts it and hands it to the callback of an open connection.
   */
  lemma DrainByAnswer<P>(decode: seq<byte> -> Answer<P>, s: seq<byte>, state: ConnState, app: App, t: Tally<P>)
    requires s != []
    ensures var a, d := decode(s), Drain(decode, s, state, app, t);
      && (a.len == 0 ==> d == Drained(t, false, state))
      && (a.len == -1 || a.len < -2 || a.len > |s| ==> d == Drained(t, true, state))
      && (a.len == -2 && (a.out == 0 || a.out > |s|) ==> d == Drained(t, true, state))
      && (a.len == -2 && 0 < a.out <= |s| ==>
            d == Drain(decode, s[a.out..], state, app, t.(beats := t.beats + 1, used := t.used + a.out)))
      && (0 < a.len <= |s| && app.hasCb && (state == Established || state == Verifying) ==>
            d == Drain(decode, s[a.len..], React(state, app.reactions(|t.given|)), app,
                       Tally(t.count + 1, t.beats, t.used + a.len, t.given + [a.pkg])))
      && (0 < a.len <= |s| && !(app.hasCb && (state == Established || state == Verifying)) ==>
            d == Drain(decode, s[a.len..], state, app, t.(count := t.count + 1, used := t.used + a.len)))
  {}

  // ---------------------------------------------------------------------
  // One drain against one parse
  // ---------------------------------------------------------------------

  /** The packages among the packets of a stream. */
  function Messages<P>(items: seq<Item<P>>): (r: seq<P>)
    ensures |r| <= |items|
  {
    if items == [] then []
    else if items[0].Heartbeat? then Messages(items[1..])
    else [items[0].pkg] + Messages(items[1..])
  }

  /** Messages dispatched one by one until the connection is no longer open. */
  datatype Dispatch<P> = Dispatch(given: seq<P>, state: ConnState)

  function Deliver<P>(state: ConnState, msgs: seq<P>, app: App, k: nat): Dispatch<P>
    decreases |msgs|
  {
    if msgs == [] || !app.hasCb || !Open(state) then Dispatch([], state)
    else
      var rest := Deliver(React(state, app.reactions(k)), msgs[1..], app, k + 1);
      Dispatch([msgs[0]] + rest.given, rest.state)
  }

  /**
    The drain loop decodes exactly the packets of one parse of the bytes, counts the
    messages and the heartbeats among them, and hands the messages to the callback
    until it closes the connection.
   */
  lemma {:induction false} DrainIsParse<P>(
      decode: seq<byte> -> Answer<P>, s: seq<byte>, state: ConnState, app: App, t: Tally<P>)
    ensures var d, p := Drain(decode, s, state, app, t), Parse(decode, s);
      var out := Deliver(state, Messages(p.items), app, |t.given|);
      && d.failed == p.failed && d.tally.used == t.used + p.used
      && d.tally.count == t.count + |Messages(p.items)|
      && d.tally.beats == t.beats + |p.items| - |Messages(p.items)|
      && d.tally.given == t.given + out.given && d.state == out.state
    decreases |s|
  {
    var v := Look(decode, s);
    if v.Take? {
      var rest := Parse(decode, s[v.n..]).items;
      var t' := Add(t, v.n, v.item, Dispatched(app.hasCb, state, v.item));
      DrainIsParse(decode, s[v.n..], StateAfter(app, state, |t.given|, v.item), app, t');
      MessagesCons(v.item, rest);
      DeliverCons(state, v.item, rest, app, t.given, t'.given);
    }
  }

  lemma MessagesCons<P>(item: Item<P>, items: seq<Item<P>>)
    ensures Messages([item] + items) == if item.Message? then [item.pkg] + Messages(items) else Messages(items)
  {
    assert ([item] + items)[1..] == items;
  }

  /** One packet in front: what it adds to the messages given, and the state it leaves. */
  lemma {:induction false} DeliverCons<P>(
      state: ConnState, item: Item<P>, items: seq<Item<P>>, app: App, given: seq<P>, given': seq<P>)
    requires given' == if Dispatched(app.hasCb, state, item) then given + [item.pkg] else given
    ensures var rest := Deliver(StateAfter(app, state, |given|, item), Messages(items), app, |given'|);
      var all := Deliver(state, Messages([item] + items), app, |given|);
      given + all.given == given' + rest.given && all.state == rest.state
  {
    MessagesCons(item, items);
    if Dispatched(app.hasCb, state, item) {
      DeliverFirst(state, item.pkg, Messages(items), app, |given|, |given'|);
      var rest := Deliver(React(state, app.reactions(|given|)), Messages(items), app, |given'|);
      ConcatAssoc(given, [item.pkg], rest.given);
    } else if item.Message? {
      DeliverNone(state, Messages([item] + items), app, |given|);
      DeliverNone(state, Messages(items), app, |given|);
    }
  }

  lemma {:induction false} DeliverNone<P>(state: ConnState, msgs: seq<P>, app: App, k: nat)
    requires !app.hasCb || !Open(state)
    ensures Deliver(state, msgs, app, k) == Dispatch([], state)
  {}

  lemma {:induction false} DeliverFirst<P>(state: ConnState, m: P, msgs: seq<P>, app: App, k: nat, next: nat)
    requires app.hasCb && Open(state) && next == k + 1
    ensures var rest := Deliver(React(state, app.reactions(k)), msgs, app, next);
      Deliver(state, [m] + msgs, app, k) == Dispatch([m] + rest.given, rest.state)
  {
    assert ([m] + msgs)[1..] == msgs;
  }

  /**
    Messages reach the callback in order and without gaps, and none after the
    connection has left the open states: only a connection that is not open, or has
    no callback, withholds any.
   */
  lemma {:induction false} DeliverStops<P>(state: ConnState, msgs: seq<P>, app: App, k: nat)
    ensures var d := Deliver(state, msgs, app, k);
      && d.given <= msgs
      && (!Open(state) ==> d.given == [] && d.state == state)
      && (|d.given| < |msgs| ==> !Open(d.state) || !app.hasCb)
      && (forall i :: 0 <= i < |d.given| ==> Open(StateAt(state, app, k, i)))
      && d.state == StateAt(state, app, k, |d.given|)
    decreases |msgs|
  {
    if msgs != [] && app.hasCb && Open(state) {
      var next := React(state, app.reactions(k));
      DeliverStops(next, msgs[1..], app, k + 1);
      var d := Deliver(state, msgs, app, k);
      forall i | 0 <= i < |d.given|
        ensures Open(StateAt(state, app, k, i))
      {
        if i > 0 { StateShift(state, app, k, i); }
      }
      StateShift(state, app, k, |d.given|);
      assert d.given[1..] <= msgs[1..];
      assert msgs == [msgs[0]] + msgs[1..];
    }
  }

  /** The state after the reactions k .. k + i - 1. */
  function StateAt(state: ConnState, app: App, k: nat, i: nat): ConnState
    decreases i
  {
    if i == 0 then state else React(StateAt(state, app, k, i - 1), app.reactions(k + i - 1))
  }

  lemma {:induction false} StateShift(state: ConnState, app: App, k: nat, i: nat)
    requires i > 0
    ensures StateAt(state, app, k, i) == StateAt(React(state, app.reactions(k)), app, k + 1, i - 1)
    decreases i
  {
    if i > 1 {
      StateShift(state, app, k, i - 1);
    }
  }

  /** One more message at the end. */
  lemma {:induction false} DeliverSnoc<P>(state: ConnState, msgs: seq<P>, m: P, app: App, k: nat)
    ensures var d := Deliver(state, msgs, app, k);
      Deliver(state, msgs + [m], app, k) ==
      if app.hasCb && Open(d.state) then Dispatch(d.given + [m], React(d.state, app.reactions(k + |d.given|))) else d
    decreases |msgs|
  {
    if app.hasCb && Open(state) {
      if msgs == [] {
        assert [] + [m] == [m] && [m][1..] == [];
      } else {
        var next := React(state, app.reactions(k));
        assert (msgs + [m])[1..] == msgs[1..] + [m];
        DeliverSnoc(next, msgs[1..], m, app, k + 1);
        var rest := Deliver(next, msgs[1..], app, k + 1);
        assert [msgs[0]] + (rest.given + [m]) == [msgs[0]] + rest.given + [m];
      }
    }
  }

  /** Further messages only add to what is delivered. */
  lemma {:induction false} DeliverPrefix<P>(state: ConnState, msgs: seq<P>, more: seq<P>, app: App, k: nat)
    ensures Deliver(state, msgs, app, k).given <= Deliver(state, msgs + more, app, k).given
    decreases |more|
  {
    if more == [] {
      assert msgs + more == msgs;
    } else {
      var n := |more| - 1;
      DeliverPrefix(state, msgs, more[..n], app, k);
      assert msgs + more == (msgs + more[..n]) + [more[n]];
      DeliverSnoc(state, msgs + more[..n], more[n], app, k);
    }
  }

  lemma {:induction false} MessagesConcat<P>(a: seq<Item<P>>, b: seq<Item<P>>)
    ensures Messages(a + b) == Messages(a) + Messages(b)
    decreases |a|
  {
    if a == [] {
      assert a + b == b;
    } else {
      assert (a + b)[1..] == a[1..] + b;
      MessagesConcat(a[1..], b);
    }
  }

  // ---------------------------------------------------------------------
  // Any number of turns, in any number of drain calls
  // ---------------------------------------------------------------------

  /** A connection that reads a stream: packets decoded so far, its state, messages given. */
  datatype Live<P> = Live(progress: Progress<P>, state: ConnState, given: seq<P>)

  /** One turn of any drain call, with the stream visible up to `visible`. */
  function LiveTurn<P>(decode: seq<byte> -> Answer<P>, stream: seq<byte>, c: Live<P>, app: App, visible: nat): Live<P> {
    var p := Turn(decode, stream, c.progress, visible);
    if |p.items| <= |c.progress.items| then c.(progress := p)
    else
      var item := p.items[|p.items| - 1];
      Live(p, StateAfter(app, c.state, |c.given|, item),
           if Dispatched(app.hasCb, c.state, item) then c.given + [item.pkg] else c.given)
  }

  function LiveTurns<P>(decode: seq<byte> -> Answer<P>, stream: seq<byte>, c: Live<P>, app: App, schedule: seq<nat>)
      : Live<P>
    decreases |schedule|
  {
    if schedule == [] then c
    else LiveTurns(decode, stream, LiveTurn(decode, stream, c, app, schedule[0]), app, schedule[1..])
  }

  /** What was given is what one parse of the whole calls for, as far as it has been decoded. */
  ghost predicate LiveOk<P>(decode: seq<byte> -> Answer<P>, stream: seq<byte>, c: Live<P>, state: ConnState, app: App) {
    && OnTrack(decode, stream, c.progress)
    && Deliver(state, Messages(c.progress.items), app, 0) == Dispatch(c.given, c.state)
  }

  lemma LiveTurnOk<P(!new)>(
      decode: seq<byte> -> Answer<P>, stream: seq<byte>, c: Live<P>, state: ConnState, app: App, visible: nat)
    requires PrefixStable(decode) && LiveOk(decode, stream, c, state, app)
    ensures LiveOk(decode, stream, LiveTurn(decode, stream, c, app, visible), state, app)
  {
    TurnOnTrack(decode, stream, c.progress, visible);
    var items, p := c.progress.items, Turn(decode, stream, c.progress, visible);
    if |p.items| > |items| {
      var item := p.items[|p.items| - 1];
      assert p.items == items + [item];
      DeliverItem(state, items, item, app, c.given, c.state);
    }
  }

  /** One packet more at the end. */
  lemma DeliverItem<P>(state: ConnState, items: seq<Item<P>>, item: Item<P>, app: App, given: seq<P>, now: ConnState)
    requires Deliver(state, Messages(items), app, 0) == Dispatch(given, now)
    ensures Deliver(state, Messages(items + [item]), app, 0) ==
      Dispatch(if Dispatched(app.hasCb, now, item) then given + [item.pkg] else given,
               StateAfter(app, now, |given|, item))
  {
    MessagesConcat(items, [item]);
    assert [item][1..] == [];
    if item.Message? {
      assert Messages([item]) == [item.pkg];
      DeliverSnoc(state, Messages(items), item.pkg, app, 0);
    } else {
      assert Messages(items + [item]) == Messages(items);
    }
  }

  lemma {:induction false} LiveTurnsOk<P(!new)>(
      decode: seq<byte> -> Answer<P>, stream: seq<byte>, c: Live<P>, state: ConnState, app: App, schedule: seq<nat>)
    requires PrefixStable(decode) && LiveOk(decode, stream, c, state, app)
    ensures LiveOk(decode, stream, LiveTurns(decode, stream, c, app, schedule), state, app)
    decreases |schedule|
  {
    if schedule != [] {
      LiveTurnOk(decode, stream, c, state, app, schedule[0]);
      LiveTurnsOk(decode, stream, LiveTurn(decode, stream, c, app, schedule[0]), state, app, schedule[1..]);
    }
  }

  function Newborn<P>(state: ConnState): Live<P> { Live(Progress(0, [], false), state, []) }

  lemma NewbornOk<P>(decode: seq<byte> -> Answer<P>, stream: seq<byte>, state: ConnState, app: App)
    ensures LiveOk(decode, stream, Newborn(state), state, app)
  {
    assert stream[0..] == stream;
  }

  /** What LiveOk means for the messages given. */
  lemma LiveGiven<P>(decode: seq<byte> -> Answer<P>, stream: seq<byte>, c: Live<P>, state: ConnState, app: App)
    requires LiveOk(decode, stream, c, state, app)
    ensures var whole := Parse(decode, stream);
      var out := Deliver(state, Messages(whole.items), app, 0);
      && c.progress.items <= whole.items && c.given <= out.given
      && (c.progress.items == whole.items ==> Dispatch(c.given, c.state) == out)
  {
    var items, rest := c.progress.items, Parse(decode, stream[c.progress.pos..]).items;
    MessagesConcat(items, rest);
    DeliverPrefix(state, Messages(items), Messages(rest), app, 0);
  }

  /**
    Independence of chunking, dispatch included: whatever turns the drain calls of a
    connection make, and whatever they see of the stream at each, the messages given
    to the callback are a prefix of what one parse of the whole stream calls for;
    once a turn with everything visible moves nothing they are all of it, the state
    is the one it calls for, and the error, if any, is the same.
   */
  lemma DispatchIndependent<P(!new)>(
      decode: seq<byte> -> Answer<P>, stream: seq<byte>, state: ConnState, app: App, schedule: seq<nat>)
    requires PrefixStable(decode)
    ensures var c := LiveTurns(decode, stream, Newborn(state), app, schedule);
      var whole := Parse(decode, stream);
      var out := Deliver(state, Messages(whole.items), app, 0);
      && c.given <= out.given
      && (LiveTurn(decode, stream, c, app, |stream|) == c ==>
            Dispatch(c.given, c.state) == out && c.progress == Progress(whole.used, whole.items, whole.failed))
  {
    NewbornOk(decode, stream, state, app);
    LiveTurnsOk(decode, stream, Newborn(state), state, app, schedule);
    var c := LiveTurns(decode, stream, Newborn(state), app, schedule);
    LiveGiven(decode, stream, c, state, app);
    if LiveTurn(decode, stream, c, app, |stream|) == c {
      StuckMeansDone(decode, stream, c.progress);
    }
  }

  // ---------------------------------------------------------------------
  // Drain calls are turns
  // ---------------------------------------------------------------------

  /** What a drain call leaves behind: position, messages given so far, state, error. */
  datatype Reader<P> = Reader(pos: nat, given: seq<P>, state: ConnState, failed: bool)

  /** A drain call that sees the stream up to `visible`; none follows a call that failed. */
  function DrainCall<P>(decode: seq<byte> -> Answer<P>, stream: seq<byte>, r: Reader<P>, app: App, visible: nat)
      : Reader<P>
  {
    if r.failed || !(r.pos <= visible <= |stream|) then r
    else
      var d := Drain(decode, stream[r.pos..visible], r.state, app, Tally(0, 0, r.pos, r.given));
      Reader(d.tally.used, d.tally.given, d.state, d.failed)
  }

  function DrainCalls<P>(decode: seq<byte> -> Answer<P>, stream: seq<byte>, r: Reader<P>, app: App, visibles: seq<nat>)
      : Reader<P>
    decreases |visibles|
  {
    if visibles == [] then r
    else DrainCalls(decode, stream, DrainCall(decode, stream, r, app, visibles[0]), app, visibles[1..])
  }

  function ReaderOf<P>(c: Live<P>): Reader<P> { Reader(c.progress.pos, c.given, c.state, c.progress.failed) }

  /** The drain loop is turns with the same bytes visible, until one moves nothing. */
  lemma {:induction false} DrainIsTurns<P>(
      decode: seq<byte> -> Answer<P>, stream: seq<byte>, c: Live<P>, app: App, visible: nat, t: Tally<P>)
      returns (schedule: seq<nat>)
    requires !c.progress.failed && c.progress.pos <= visible <= |stream|
    requires t.used == c.progress.pos && t.given == c.given
    ensures var c' := LiveTurns(decode, stream, c, app, schedule);
      var d := Drain(decode, stream[c.progress.pos..visible], c.state, app, t);
      && Reader(d.tally.used, d.tally.given, d.state, d.failed) == ReaderOf(c')
      && LiveTurn(decode, stream, c', app, visible) == c'
    decreases visible - c.progress.pos
  {
    var s := stream[c.progress.pos..visible];
    var v := Look(decode, s);
    var c1 := LiveTurn(decode, stream, c, app, visible);
    if v.Wait? {
      schedule := [];
    } else if v.Fail? {
      schedule := [visible];
      assert [visible][1..] == [];
    } else {
      assert s[v.n..] == stream[c1.progress.pos..visible];
      var rest := DrainIsTurns(decode, stream, c1, app, visible,
                               Add(t, v.n, v.item, Dispatched(app.hasCb, c.state, v.item)));
      schedule := [visible] + rest;
      assert schedule[1..] == rest;
    }
  }

  lemma {:induction false} TurnsConcat<P>(
      decode: seq<byte> -> Answer<P>, stream: seq<byte>, c: Live<P>, app: App, a: seq<nat>, b: seq<nat>)
    ensures LiveTurns(decode, stream, c, app, a + b) ==
      LiveTurns(decode, stream, LiveTurns(decode, stream, c, app, a), app, b)
    decreases |a|
  {
    if a == [] {
      assert a + b == b;
    } else {
      assert (a + b)[1..] == a[1..] + b;
      TurnsConcat(decode, stream, LiveTurn(decode, stream, c, app, a[0]), app, a[1..], b);
    }
  }

  lemma {:induction false} CallsAreTurns<P>(
      decode: seq<byte> -> Answer<P>, stream: seq<byte>, c: Live<P>, app: App, visibles: seq<nat>)
      returns (schedule: seq<nat>)
    ensures DrainCalls(decode, stream, ReaderOf(c), app, visibles) ==
      ReaderOf(LiveTurns(decode, stream, c, app, schedule))
    decreases |visibles|
  {
    if visibles == [] {
      schedule := [];
    } else if c.progress.failed || !(c.progress.pos <= visibles[0] <= |stream|) {
      schedule := CallsAreTurns(decode, stream, c, app, visibles[1..]);
    } else {
      var first := DrainIsTurns(decode, stream, c, app, visibles[0], Tally(0, 0, c.progress.pos, c.given));
      var rest := CallsAreTurns(decode, stream, LiveTurns(decode, stream, c, app, first), app, visibles[1..]);
      schedule := first + rest;
      TurnsConcat(decode, stream, c, app, first, rest);
    }
  }

  /**
    Any number of drain calls on one stream, each seeing any part of it: together
    they give the callback a prefix of the messages one parse of the whole stream
    calls for; a call that sees everything, after any others, completes it.
   */
  lemma DrainCallsComplete<P(!new)>(
      decode: seq<byte> -> Answer<P>, stream: seq<byte>, state: ConnState, app: App, visibles: seq<nat>)
    requires PrefixStable(decode)
    ensures var r := DrainCalls(decode, stream, Reader(0, [], state, false), app, visibles);
      var whole := Parse(decode, stream);
      var out := Deliver(state, Messages(whole.items), app, 0);
      && r.given <= out.given
      && DrainCall(decode, stream, r, app, |stream|) == Reader(whole.used, out.given, out.state, whole.failed)
  {
    var newborn: Live<P> := Newborn(state);
    var schedule := CallsAreTurns(decode, stream, newborn, app, visibles);
    DispatchIndependent(decode, stream, state, app, schedule);
    var c := LiveTurns(decode, stream, newborn, app, schedule);
    NewbornOk(decode, stream, state, app);
    LiveTurnsOk(decode, stream, newborn, state, app, schedule);
    if c.progress.failed {
      assert LiveTurn(decode, stream, c, app, |stream|) == c;
    } else {
      var last := DrainIsTurns(decode, stream, c, app, |stream|, Tally(0, 0, c.progress.pos, c.given));
      TurnsConcat(decode, stream, newborn, app, schedule, last);
      DispatchIndependent(decode, stream, state, app, schedule + last);
    }
  }
}
