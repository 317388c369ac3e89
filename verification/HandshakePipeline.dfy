/**
  The server's accept pipeline: two threads and a mutex.

  The loop thread accepts sockets into `pending` and adopts finished handshakes
  from `done`; the worker thread takes one socket at a time through `current`.
  A step is one critical section, or one stretch between two of them; the steps of
  the two threads interleave freely. Sockets are named by the order of accept.

  Adoption is two steps, with the application's codec factory between them. The
  factory and the callbacks that run while connections are adopted may close
  connections, stop the server and start it again; the loop thread is not
  re-entered.
 */
module HandshakePipeline {
  import opened Basics

  /**
    Where the loop thread is: between events, in OnAccept past the limit check,
    between two adoptions, in the codec factory with a socket in hand, or in Stop.
   */
  datatype Pc = Idle | Accepting | Adopting | Making(socket: nat) | Joining(resume: Pc)

  datatype State = State(
    max: int,
    started: bool, stopping: bool, workerAlive: bool,
    pc: Pc,
    pending: seq<nat>, current: Option<nat>, done: seq<nat>,
    ready: seq<nat>,          // swapped out of `done`, not yet adopted
    conns: set<nat>,
    // auxiliary: number of sockets accepted, connections ever adopted, sockets given up
    accepted: nat, adopted: seq<nat>, released: set<nat>)

  datatype Step =
    | CheckLimit
    | AcceptFailed
    | PushPending
    | SwapDone
    | AdoptBegin
    | AdoptEnd(codecOk: bool)
    | DoneAdopting
    | CloseConn(conn: nat)
    | StopBegin
    | StopEnd
    | Start
    | WorkerTake
    | WorkerFinish(ok: bool)
    | WorkerExit

  function InFlight(s: State): nat {
    |s.pending| + |s.done| + |One(s.current)|
  }

  function One(c: Option<nat>): seq<nat> { if c.Some? then [c.value] else [] }

  /** The socket for which the codec factory is running. */
  function InHand(pc: Pc): seq<nat> {
    match pc
    case Making(socket) => [socket]
    case Joining(resume) => InHand(resume)
    case _ => []
  }

  /** What is behind the sockets being adopted. */
  function Behind(s: State): seq<nat> { s.done + One(s.current) + s.pending }

  /** The sockets between accept and adoption, oldest first. */
  function Pipeline(s: State): seq<nat> { InHand(s.pc) + s.ready + Behind(s) }

  function ToSet(xs: seq<nat>): set<nat> { set x | x in xs }

  /** May run on the loop thread: between events or inside a callback. */
  predicate OnLoop(s: State) { s.pc.Idle? || s.pc.Adopting? || s.pc.Making? }

  ghost predicate Enabled(s: State, step: Step) {
    match step
    case CheckLimit => s.pc.Idle? && s.started
    case AcceptFailed => s.pc.Accepting?
    case PushPending => s.pc.Accepting?
    case SwapDone => s.pc.Idle? && s.started
    case AdoptBegin => s.pc.Adopting? && s.ready != []
    case AdoptEnd(_) => s.pc.Making?
    case DoneAdopting => s.pc.Adopting? && s.ready == []
    case CloseConn(conn) => OnLoop(s) && conn in s.conns
    case StopBegin => OnLoop(s) && s.started
    case StopEnd => s.pc.Joining? && !s.workerAlive
    case Start => OnLoop(s) && !s.started
    case WorkerTake => s.workerAlive && s.current.None? && s.pending != []
    case WorkerFinish(_) => s.workerAlive && s.current.Some?
    case WorkerExit => s.workerAlive && s.stopping && s.current.None? && s.pending == []
  }

  function Apply(s: State, step: Step): State {
    match step
    case CheckLimit =>
      if s.max <= 0 || |s.conns| + InFlight(s) >= s.max then
        s.(accepted := s.accepted + 1, released := s.released + {s.accepted})
      else s.(pc := Accepting)
    case AcceptFailed => s.(pc := Idle)
    case PushPending => s.(pc := Idle, pending := s.pending + [s.accepted], accepted := s.accepted + 1)
    case SwapDone => s.(pc := Adopting, ready := s.done, done := [])
    case AdoptBegin =>
      if s.ready == [] then s
      else if !s.started then s.(ready := [], released := s.released + ToSet(s.ready))
      else if |s.conns| >= s.max then s.(ready := s.ready[1..], released := s.released + {s.ready[0]})
      else s.(pc := Making(s.ready[0]), ready := s.ready[1..])
    case AdoptEnd(codecOk) =>
      if !s.pc.Making? then s
      else if !codecOk then s.(pc := Adopting, released := s.released + {s.pc.socket})
      else s.(pc := Adopting, conns := s.conns + {s.pc.socket}, adopted := s.adopted + [s.pc.socket])
    case DoneAdopting => s.(pc := Idle)
    case CloseConn(conn) => s.(conns := s.conns - {conn}, released := s.released + {conn})
    case StopBegin => s.(started := false, stopping := true, pc := Joining(s.pc))
    case StopEnd =>
      if !s.pc.Joining? then s
      else
        s.(pc := s.pc.resume, conns := {}, pending := [], current := None, done := [],
           released := s.released + s.conns + ToSet(Behind(s)))
    case Start => s.(started := true, stopping := false, workerAlive := true)
    case WorkerTake =>
      if s.pending == [] then s else s.(current := Some(s.pending[0]), pending := s.pending[1..])
    case WorkerFinish(ok) =>
      if s.current.None? then s
      else if ok && !s.stopping then s.(current := None, done := s.done + [s.current.value])
      else s.(current := None, released := s.released + {s.current.value})
    case WorkerExit => s.(workerAlive := false)
  }

  predicate Init(s: State) {
    s == State(s.max, false, false, false, Idle, [], None, [], [], {}, 0, [], {})
  }

  // ---------------------------------------------------------------------
  // The invariant
  // ---------------------------------------------------------------------

  /** Slots taken: connections, sockets in the pipeline, and one OnAccept has let through. */
  function Load(s: State): nat {
    |s.conns| + InFlight(s) + |s.ready| + |InHand(s.pc)| + if s.pc.Accepting? then 1 else 0
  }

  /** No more slots taken than there are. */
  ghost predicate CapacityInv(s: State) {
    Load(s) <= if s.max > 0 then s.max else 0
  }

  ghost predicate ControlInv(s: State) {
    && (s.pc.Joining? ==> !s.started && s.stopping && !s.pc.resume.Joining? && !s.pc.resume.Accepting?)
    && (s.pc.Idle? || s.pc == Joining(Idle) || s.pc.Accepting? ==> s.ready == [])
    && (s.pc.Joining? && !s.workerAlive ==> s.pending == [] && s.current.None?)
    && (s.pc.Accepting? ==> s.started)
    && (s.started ==> s.workerAlive && !s.stopping)
    && (!s.started && !s.pc.Joining? ==> !s.workerAlive && InFlight(s) == 0)
  }

  /** Every socket accepted so far is in exactly one place, and the order of accept is kept. */
  ghost predicate PlacesOk(adopted: seq<nat>, line: seq<nat>, conns: set<nat>, released: set<nat>, accepted: nat) {
    && Increasing(adopted + line, 0, accepted)
    && (forall x :: x in conns ==> x in adopted && x !in released)
    && (forall x :: x in line ==> x !in released)
    && (forall x: nat :: x in conns || x in line || x in released <==> x < accepted)
  }

  ghost predicate SocketInv(s: State) { PlacesOk(s.adopted, Pipeline(s), s.conns, s.released, s.accepted) }

  ghost predicate Inv(s: State) { CapacityInv(s) && ControlInv(s) && SocketInv(s) }

  lemma CapacityStep(s: State, step: Step)
    requires CapacityInv(s) && ControlInv(s) && Enabled(s, step)
    ensures CapacityInv(Apply(s, step))
  {
    match step
    case AdoptEnd(codecOk) =>
      assert |s.conns + {s.pc.socket}| <= |s.conns| + 1;
    case CloseConn(conn) =>
      assert |s.conns - {conn}| <= |s.conns|;
    case _ =>
  }

  lemma ControlStep(s: State, step: Step)
    requires ControlInv(s) && Enabled(s, step)
    ensures ControlInv(Apply(s, step))
  {}

  // ---------------------------------------------------------------------
  // Sockets
  // ---------------------------------------------------------------------

  lemma Apart(a: seq<nat>, b: seq<nat>, bound: nat)
    requires Increasing(a + b, 0, bound)
    ensures forall x :: x in a ==> x !in b
  {
    forall i, j | 0 <= i < |a| && 0 <= j < |b|
      ensures a[i] != b[j]
    {
      assert (a + b)[i] == a[i] && (a + b)[|a| + j] == b[j];
    }
  }

  lemma IncreasingWithout(a: seq<nat>, xs: seq<nat>, b: seq<nat>, bound: nat)
    requires Increasing(a + xs + b, 0, bound)
    ensures Increasing(a + b, 0, bound)
    ensures forall x :: x in xs ==> x !in a && x !in b
  {
    var all, left := a + xs + b, a + b;
    forall i | 0 <= i < |left|
      ensures left[i] < bound && forall j :: i < j < |left| ==> left[i] < left[j]
    {
      var i' := if i < |a| then i else i + |xs|;
      assert left[i] == all[i'];
      forall j | i < j < |left|
        ensures left[i] < left[j]
      {
        assert left[j] == all[if j < |a| then j else j + |xs|];
      }
    }
    assert a + xs + b == a + (xs + b);
    Apart(a, xs + b, bound);
    Apart(a + xs, b, bound);
  }

  /** Sockets leave the line unadopted only by being released. */
  lemma ReleaseSome(adopted: seq<nat>, a: seq<nat>, xs: seq<nat>, b: seq<nat>, conns: set<nat>, released: set<nat>,
                    accepted: nat)
    requires PlacesOk(adopted, a + xs + b, conns, released, accepted)
    ensures PlacesOk(adopted, a + b, conns, released + ToSet(xs), accepted)
  {
    assert adopted + (a + xs + b) == (adopted + a) + xs + b;
    IncreasingWithout(adopted + a, xs, b, accepted);
    assert adopted + (a + b) == (adopted + a) + b;
    assert forall x :: x in a + xs + b <==> x in a + b || x in xs;
  }

  lemma ReleaseFront(adopted: seq<nat>, xs: seq<nat>, rest: seq<nat>, conns: set<nat>, released: set<nat>, accepted: nat)
    requires PlacesOk(adopted, xs + rest, conns, released, accepted)
    ensures PlacesOk(adopted, rest, conns, released + ToSet(xs), accepted)
  {
    assert [] + xs + rest == xs + rest && [] + rest == rest;
    ReleaseSome(adopted, [], xs, rest, conns, released, accepted);
  }

  /** The head of the line becomes a connection. */
  lemma AdoptHead(adopted: seq<nat>, x: nat, rest: seq<nat>, conns: set<nat>, released: set<nat>, accepted: nat)
    requires PlacesOk(adopted, [x] + rest, conns, released, accepted)
    ensures PlacesOk(adopted + [x], rest, conns + {x}, released, accepted)
  {
    assert adopted + [x] + rest == adopted + ([x] + rest);
    assert forall y :: y in [x] + rest <==> y == x || y in rest;
  }

  lemma PushLast(adopted: seq<nat>, line: seq<nat>, conns: set<nat>, released: set<nat>, accepted: nat)
    requires PlacesOk(adopted, line, conns, released, accepted)
    ensures PlacesOk(adopted, line + [accepted], conns, released, accepted + 1)
  {
    assert adopted + (line + [accepted]) == adopted + line + [accepted];
  }

  lemma ReleaseConns(adopted: seq<nat>, line: seq<nat>, conns: set<nat>, released: set<nat>, accepted: nat, gone: set<nat>)
    requires PlacesOk(adopted, line, conns, released, accepted) && gone <= conns
    ensures PlacesOk(adopted, line, conns - gone, released + gone, accepted)
  {
    Apart(adopted, line, accepted);
  }

  lemma SocketStep(s: State, step: Step)
    requires ControlInv(s) && SocketInv(s) && Enabled(s, step)
    ensures SocketInv(Apply(s, step))
  {
    match step
    case PushPending =>
      PushLast(s.adopted, Pipeline(s), s.conns, s.released, s.accepted);
      assert Pipeline(Apply(s, step)) == Pipeline(s) + [s.accepted];
    case SwapDone =>
      assert Pipeline(Apply(s, step)) == Pipeline(s);
    case AdoptBegin => AdoptBeginSockets(s);
    case AdoptEnd(codecOk) => AdoptEndSockets(s, codecOk);
    case CloseConn(conn) =>
      ReleaseConns(s.adopted, Pipeline(s), s.conns, s.released, s.accepted, {conn});
    case StopEnd => StopSockets(s);
    case WorkerTake =>
      assert Behind(Apply(s, step)) == Behind(s);
    case WorkerFinish(ok) => WorkerSockets(s, ok);
    case _ =>
      assert Pipeline(Apply(s, step)) == Pipeline(s);
  }

  lemma AdoptBeginSockets(s: State)
    requires SocketInv(s) && Enabled(s, AdoptBegin)
    ensures SocketInv(Apply(s, AdoptBegin))
  {
    assert s.ready == [s.ready[0]] + s.ready[1..];
    if !s.started {
      assert Pipeline(s) == s.ready + Behind(s);
      ReleaseFront(s.adopted, s.ready, Behind(s), s.conns, s.released, s.accepted);
      assert Pipeline(Apply(s, AdoptBegin)) == Behind(s);
    } else if |s.conns| >= s.max {
      var rest := s.ready[1..] + Behind(s);
      assert Pipeline(s) == [s.ready[0]] + rest;
      ReleaseFront(s.adopted, [s.ready[0]], rest, s.conns, s.released, s.accepted);
      assert Pipeline(Apply(s, AdoptBegin)) == rest && ToSet([s.ready[0]]) == {s.ready[0]};
    } else {
      assert Pipeline(Apply(s, AdoptBegin)) == Pipeline(s);
    }
  }

  lemma AdoptEndSockets(s: State, codecOk: bool)
    requires SocketInv(s) && Enabled(s, AdoptEnd(codecOk))
    ensures SocketInv(Apply(s, AdoptEnd(codecOk)))
  {
    var x, rest := s.pc.socket, s.ready + Behind(s);
    assert Pipeline(s) == [x] + rest && Pipeline(Apply(s, AdoptEnd(codecOk))) == rest;
    if codecOk {
      AdoptHead(s.adopted, x, rest, s.conns, s.released, s.accepted);
    } else {
      ReleaseFront(s.adopted, [x], rest, s.conns, s.released, s.accepted);
      assert ToSet([x]) == {x};
    }
  }

  lemma WorkerSockets(s: State, ok: bool)
    requires SocketInv(s) && Enabled(s, WorkerFinish(ok))
    ensures SocketInv(Apply(s, WorkerFinish(ok)))
  {
    var x, before := s.current.value, InHand(s.pc) + s.ready + s.done;
    assert Pipeline(s) == before + [x] + s.pending;
    if ok && !s.stopping {
      assert Pipeline(Apply(s, WorkerFinish(ok))) == Pipeline(s);
    } else {
      ReleaseSome(s.adopted, before, [x], s.pending, s.conns, s.released, s.accepted);
      assert Pipeline(Apply(s, WorkerFinish(ok))) == before + s.pending && ToSet([x]) == {x};
    }
  }

  lemma StopSockets(s: State)
    requires ControlInv(s) && SocketInv(s) && Enabled(s, StopEnd)
    ensures SocketInv(Apply(s, StopEnd))
  {
    var t, kept := Apply(s, StopEnd), InHand(s.pc) + s.ready;
    assert kept + Behind(s) + [] == Pipeline(s) && kept + [] == kept;
    ReleaseSome(s.adopted, kept, Behind(s), [], s.conns, s.released, s.accepted);
    ReleaseConns(s.adopted, kept, s.conns, s.released + ToSet(Behind(s)), s.accepted, s.conns);
    assert Pipeline(t) == kept && s.conns - s.conns == {};
    assert t.released == s.released + ToSet(Behind(s)) + s.conns;
  }

  // ---------------------------------------------------------------------
  // Whole runs
  // ---------------------------------------------------------------------

  ghost predicate Reaches(s: State, steps: seq<Step>, t: State)
    decreases |steps|
  {
    if steps == [] then s == t
    else Enabled(s, steps[0]) && Reaches(Apply(s, steps[0]), steps[1..], t)
  }

  lemma StepInv(s: State, step: Step)
    requires Inv(s) && Enabled(s, step)
    ensures Inv(Apply(s, step))
  {
    CapacityStep(s, step);
    ControlStep(s, step);
    SocketStep(s, step);
  }

  lemma {:induction false} RunInv(s: State, steps: seq<Step>, t: State)
    requires Inv(s) && Reaches(s, steps, t)
    ensures Inv(t) && t.max == s.max
    decreases |steps|
  {
    if steps != [] {
      StepInv(s, steps[0]);
      RunInv(Apply(s, steps[0]), steps[1..], t);
    }
  }

  lemma InitInv(s: State)
    requires Init(s)
    ensures Inv(s)
  {
    assert Pipeline(s) == [];
  }

  /**
    In every interleaving the connections, the sockets in every stage of the
    pipeline and the one OnAccept is about to push never exceed the limit, although
    its check and its push are separate critical sections. So when adoption begins
    there is room, and there still is when the codec factory has returned: the
    over-limit branch of FinishAccept is dead.
   */
  lemma WithinLimit(s: State, steps: seq<Step>, t: State)
    requires Init(s) && Reaches(s, steps, t)
    ensures |t.conns| + |t.pending| + |t.done| + |t.ready| + |InHand(t.pc)| + (if t.current.Some? then 1 else 0)
      <= if t.max > 0 then t.max else 0
    ensures t.pc.Adopting? && t.ready != [] ==> |t.conns| < t.max
    ensures t.pc.Making? ==> |t.conns| < t.max
  {
    InitInv(s);
    RunInv(s, steps, t);
  }

  /**
    No socket is lost, duplicated or reordered: every socket accepted is in exactly
    one of the connection table, the pipeline and the ones given up, and connections
    are adopted in the order of accept. Once Stop has returned to the event loop the
    pipeline is empty, and if no adoption was late every socket has been given up.
   */
  lemma SocketsConserved(s: State, steps: seq<Step>, t: State)
    requires Init(s) && Reaches(s, steps, t)
    ensures forall x: nat :: x < t.accepted <==> x in t.conns || x in Pipeline(t) || x in t.released
    ensures forall x :: x in t.conns ==> x !in Pipeline(t) && x !in t.released
    ensures forall x :: x in Pipeline(t) ==> x !in t.released
    ensures Increasing(t.adopted + Pipeline(t), 0, t.accepted)
    ensures t.pc.Idle? && !t.started ==> Pipeline(t) == []
    ensures t.pc.Idle? && !t.started && NoneLate(s, steps) ==> forall x: nat :: x < t.accepted <==> x in t.released
  {
    InitInv(s);
    RunInv(s, steps, t);
    ReleaseConns(t.adopted, Pipeline(t), t.conns, t.released, t.accepted, t.conns);
    if NoneLate(s, steps) {
      PromptIsClean(s, steps, t);
    }
  }

  // ---------------------------------------------------------------------
  // A Stop inside the codec factory
  // ---------------------------------------------------------------------

  /** The codec factory hands over a codec although the server has been stopped meanwhile. */
  predicate Late(s: State, step: Step) { step == AdoptEnd(true) && !s.started }

  ghost predicate NoneLate(s: State, steps: seq<Step>)
    decreases |steps|
  {
    steps == [] || (!Late(s, steps[0]) && NoneLate(Apply(s, steps[0]), steps[1..]))
  }

  /** A server on which Stop has done its work has no connections. */
  predicate Clean(s: State) { OnLoop(s) && !s.started ==> s.conns == {} }

  ghost predicate AllClean(s: State, steps: seq<Step>)
    decreases |steps|
  {
    Clean(s) && (steps == [] || AllClean(Apply(s, steps[0]), steps[1..]))
  }

  lemma CleanStep(s: State, step: Step)
    requires ControlInv(s) && Enabled(s, step) && Clean(s)
    ensures Clean(Apply(s, step)) <==> !Late(s, step)
  {
    if step == AdoptEnd(true) {
      assert s.pc.socket in Apply(s, step).conns;
    }
  }

  lemma {:induction false} CleanIff(s: State, steps: seq<Step>, t: State)
    requires Inv(s) && Reaches(s, steps, t) && Clean(s)
    ensures AllClean(s, steps) <==> NoneLate(s, steps)
    decreases |steps|
  {
    if steps != [] {
      var s' := Apply(s, steps[0]);
      CleanStep(s, steps[0]);
      StepInv(s, steps[0]);
      if Clean(s') {
        CleanIff(s', steps[1..], t);
      }
    }
  }

  lemma {:induction false} PromptIsClean(s: State, steps: seq<Step>, t: State)
    requires Inv(s) && Reaches(s, steps, t) && Clean(s) && NoneLate(s, steps)
    ensures Clean(t)
    decreases |steps|
  {
    if steps != [] {
      CleanStep(s, steps[0]);
      StepInv(s, steps[0]);
      PromptIsClean(Apply(s, steps[0]), steps[1..], t);
    }
  }

  /**
    FinishAccept calls the codec factory between the test of started_ and the
    insertion into the table. A run keeps "a stopped server has no connections"
    throughout exactly when no factory call hands over a codec on a stopped server.
   */
  lemma StopCleanIff(s: State, steps: seq<Step>, t: State)
    requires Init(s) && Reaches(s, steps, t)
    ensures AllClean(s, steps) <==> NoneLate(s, steps)
  {
    InitInv(s);
    CleanIff(s, steps, t);
  }

  /**
    The run that goes wrong, from any state in which the factory is called with the
    worker idle: the factory stops the server and returns a codec. The connection
    stays in the table of a stopped server, on which Stop does nothing.
   */
  lemma StopInFactory(s: State) returns (t: State)
    requires ControlInv(s) && s.pc.Making? && s.started && s.pending == [] && s.current.None?
    ensures Reaches(s, [StopBegin, WorkerExit, StopEnd, AdoptEnd(true)], t)
    ensures !NoneLate(s, [StopBegin, WorkerExit, StopEnd, AdoptEnd(true)])
    ensures OnLoop(t) && !t.started && t.conns == {s.pc.socket} && !Enabled(t, StopBegin)
  {
    var steps := [StopBegin, WorkerExit, StopEnd, AdoptEnd(true)];
    var s1 := Apply(s, StopBegin);
    var s2 := Apply(s1, WorkerExit);
    var s3 := Apply(s2, StopEnd);
    t := Apply(s3, AdoptEnd(true));
    assert steps[1..] == [WorkerExit, StopEnd, AdoptEnd(true)];
    assert steps[1..][1..] == [StopEnd, AdoptEnd(true)];
    assert steps[1..][1..][1..] == [AdoptEnd(true)];
    assert Late(s3, AdoptEnd(true));
  }
}
