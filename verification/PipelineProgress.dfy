/**
  Who gets into the server's accept pipeline, what becomes of them there, and that
  neither adoption nor Stop can get stuck.
 */
module PipelineProgress {
  import opened Basics
  import opened HandshakePipeline

  lemma {:induction false} ReachesConcat(s: State, a: seq<Step>, m: State, b: seq<Step>, t: State)
    requires Reaches(s, a, m) && Reaches(m, b, t)
    ensures Reaches(s, a + b, t)
    decreases |a|
  {
    if a == [] {
      assert a + b == b;
    } else {
      assert (a + b)[1..] == a[1..] + b;
      ReachesConcat(Apply(s, a[0]), a[1..], m, b, t);
    }
  }

  lemma ReachesCons(s: State, step: Step, m: State, rest: seq<Step>, t: State)
    requires Enabled(s, step) && m == Apply(s, step) && Reaches(m, rest, t)
    ensures Reaches(s, [step] + rest, t)
  {
    assert ([step] + rest)[1..] == rest;
  }

  // ---------------------------------------------------------------------
  // Getting in
  // ---------------------------------------------------------------------

  /** A socket given up stays given up. */
  lemma {:induction false} ReleasedStays(s: State, steps: seq<Step>, t: State)
    requires Reaches(s, steps, t)
    ensures s.released <= t.released
    decreases |steps|
  {
    if steps != [] {
      ReleasedStep(s, steps[0]);
      ReleasedStays(Apply(s, steps[0]), steps[1..], t);
    }
  }

  lemma ReleasedStep(s: State, step: Step)
    ensures s.released <= Apply(s, step).released
  {}

  /** The next socket, accepted by an OnAccept that starts now, gets into the line in some continuation. */
  ghost predicate CanEnter(s: State) {
    exists rest, t :: Reaches(s, [CheckLimit] + rest, t) && s.accepted in Pipeline(t)
  }

  lemma EntersWithRoom(s: State)
    requires Inv(s) && s.pc.Idle? && s.started && |s.conns| + |Pipeline(s)| < s.max
    ensures Apply(s, CheckLimit) == s.(pc := Accepting)
    ensures Apply(Apply(s, CheckLimit), PushPending) == s.(pending := s.pending + [s.accepted], accepted := s.accepted + 1)
    ensures CanEnter(s)
  {
    var m := Apply(s, CheckLimit);
    var t := Apply(m, PushPending);
    assert [PushPending][1..] == [];
    ReachesCons(s, CheckLimit, m, [PushPending], t);
    assert s.accepted in t.pending && s.accepted in Pipeline(t);
  }

  lemma RefusedWithoutRoom(s: State, rest: seq<Step>, t: State)
    requires Inv(s) && s.pc.Idle? && s.started && |s.conns| + |Pipeline(s)| >= s.max
    requires Reaches(s, [CheckLimit] + rest, t)
    ensures s.accepted !in Pipeline(t) && s.accepted in t.released
  {
    assert ([CheckLimit] + rest)[1..] == rest;
    var m := Apply(s, CheckLimit);
    assert s.accepted in m.released;
    StepInv(s, CheckLimit);
    ReleasedStays(m, rest, t);
    RunInv(m, rest, t);
  }

  /**
    The law of admission: in every reachable state in which the loop thread gets to
    OnAccept, the socket it accepts can get into the line exactly if there are fewer
    connections and sockets in the line than max_clients_ allows; with room it is
    pushed as the last of the line, and otherwise it is given up at once.
   */
  lemma AdmittedIff(s: State, run: seq<Step>, t: State)
    requires Init(s) && Reaches(s, run, t) && t.pc.Idle? && t.started
    ensures CanEnter(t) <==> |t.conns| + |Pipeline(t)| < t.max
    ensures |t.conns| + |Pipeline(t)| < t.max ==>
      Apply(Apply(t, CheckLimit), PushPending) == t.(pending := t.pending + [t.accepted], accepted := t.accepted + 1)
    ensures |t.conns| + |Pipeline(t)| >= t.max ==>
      Apply(t, CheckLimit) == t.(accepted := t.accepted + 1, released := t.released + {t.accepted})
  {
    InitInv(s);
    RunInv(s, run, t);
    if |t.conns| + |Pipeline(t)| < t.max {
      EntersWithRoom(t);
    } else if CanEnter(t) {
      var rest, u :| Reaches(t, [CheckLimit] + rest, u) && t.accepted in Pipeline(u);
      RefusedWithoutRoom(t, rest, u);
      assert false;
    }
  }

  // ---------------------------------------------------------------------
  // Getting out
  // ---------------------------------------------------------------------

  /** Why a step gives a socket up. */
  ghost predicate Reason(s: State, step: Step, x: nat) {
    || (step.CheckLimit? && x == s.accepted && |s.conns| + |Pipeline(s)| >= s.max)
    || (step.WorkerFinish? && s.current == Some(x) && (!step.ok || s.stopping))
    || (step == AdoptEnd(false) && s.pc == Making(x))
    || step == CloseConn(x)
    || (step.StopEnd? && (x in s.conns || x in s.done))
    || (step.AdoptBegin? && !s.started && x in s.ready)
  }

  /**
    In every run a socket is given up only by a refusal at the limit, a failed or
    interrupted handshake, a codec factory that returns none, the closing of its
    connection, or a Stop.
   */
  lemma GivenUpForAReason(s: State, run: seq<Step>, t: State, step: Step, x: nat)
    requires Init(s) && Reaches(s, run, t) && Enabled(t, step)
    requires x in Apply(t, step).released && x !in t.released
    ensures Reason(t, step, x)
  {
    InitInv(s);
    RunInv(s, run, t);
    if step.StopEnd? {
      assert Behind(t) == t.done;
    }
  }

  // ---------------------------------------------------------------------
  // Getting through
  // ---------------------------------------------------------------------

  /** A worker that succeeds. */
  lemma Handshake(s: State) returns (steps: seq<Step>, t: State)
    requires s.workerAlive && !s.stopping && (s.current.Some? || s.pending != [])
    ensures Reaches(s, steps, t)
    ensures t == s.(current := None, done := s.done + [Behind(s)[|s.done|]],
                    pending := if s.current.Some? then s.pending else s.pending[1..])
    ensures Behind(t) == Behind(s)
  {
    if s.current.Some? {
      t := Apply(s, WorkerFinish(true));
      steps := [WorkerFinish(true)];
      assert steps[1..] == [];
    } else {
      var m := Apply(s, WorkerTake);
      t := Apply(m, WorkerFinish(true));
      assert [WorkerFinish(true)][1..] == [];
      ReachesCons(s, WorkerTake, m, [WorkerFinish(true)], t);
      steps := [WorkerTake] + [WorkerFinish(true)];
    }
  }

  /** All handshakes succeed, one after the other. */
  lemma {:induction false} AllHandshakes(s: State) returns (steps: seq<Step>, t: State)
    requires s.workerAlive && !s.stopping
    ensures Reaches(s, steps, t) && t == s.(current := None, pending := [], done := Behind(s))
    decreases |s.pending|, |One(s.current)|
  {
    if s.current.None? && s.pending == [] {
      steps, t := [], s;
      assert Behind(s) == s.done;
    } else {
      var first, m := Handshake(s);
      var rest;
      rest, t := AllHandshakes(m);
      ReachesConcat(s, first, m, rest, t);
      steps := first + rest;
    }
  }

  /** Room for all that are ready. */
  ghost predicate RoomForReady(s: State) { s.ready != [] ==> |s.conns| + |s.ready| <= s.max }

  lemma AdoptOne(s: State) returns (t: State)
    requires s.pc.Adopting? && s.started && s.ready != [] && RoomForReady(s)
    ensures Reaches(s, [AdoptBegin, AdoptEnd(true)], t) && RoomForReady(t)
    ensures t == s.(ready := s.ready[1..], conns := s.conns + {s.ready[0]}, adopted := s.adopted + [s.ready[0]])
  {
    var m := Apply(s, AdoptBegin);
    t := Apply(m, AdoptEnd(true));
    assert [AdoptEnd(true)][1..] == [];
    ReachesCons(s, AdoptBegin, m, [AdoptEnd(true)], t);
    assert [AdoptBegin] + [AdoptEnd(true)] == [AdoptBegin, AdoptEnd(true)];
    assert |s.conns + {s.ready[0]}| <= |s.conns| + 1;
  }

  /** All finished handshakes are adopted, in order. */
  lemma {:induction false} AdoptAll(s: State) returns (steps: seq<Step>, t: State)
    requires s.pc.Adopting? && s.started && RoomForReady(s)
    ensures Reaches(s, steps, t)
    ensures t == s.(ready := [], conns := s.conns + ToSet(s.ready), adopted := s.adopted + s.ready)
    decreases |s.ready|
  {
    if s.ready == [] {
      steps, t := [], s;
      assert s.conns + ToSet(s.ready) == s.conns && s.adopted + s.ready == s.adopted;
    } else {
      var m := AdoptOne(s);
      var rest;
      rest, t := AdoptAll(m);
      ReachesConcat(s, [AdoptBegin, AdoptEnd(true)], m, rest, t);
      steps := [AdoptBegin, AdoptEnd(true)] + rest;
      HeadAdopted(s.conns, s.adopted, s.ready);
    }
  }

  lemma HeadAdopted(conns: set<nat>, adopted: seq<nat>, ready: seq<nat>)
    requires ready != []
    ensures conns + {ready[0]} + ToSet(ready[1..]) == conns + ToSet(ready)
    ensures adopted + [ready[0]] + ready[1..] == adopted + ready
  {
    assert ready == [ready[0]] + ready[1..];
  }

  /**
    From every reachable state of a started server, between events, all the sockets in
    the line can become connections, in the order of accept, with handshakes that
    succeed and a codec factory that returns codecs; nothing is given up on the way.
   */
  lemma AdoptionPossible(s: State, run: seq<Step>, t: State) returns (steps: seq<Step>, u: State)
    requires Init(s) && Reaches(s, run, t) && t.pc.Idle? && t.started
    ensures Reaches(t, steps, u) && Pipeline(u) == [] && u.pc.Idle? && u.released == t.released && u.started
    ensures u.conns == t.conns + ToSet(Pipeline(t)) && u.adopted == t.adopted + Pipeline(t)
  {
    InitInv(s);
    RunInv(s, run, t);
    var work, t1 := AllHandshakes(t);
    RunInv(t, work, t1);
    var t2 := Apply(t1, SwapDone);
    assert RoomForReady(t2);
    var adopt, t3 := AdoptAll(t2);
    u := Apply(t3, DoneAdopting);
    assert Pipeline(t) == Behind(t) && t2.ready == Behind(t);
    assert [DoneAdopting][1..] == [];
    ReachesConcat(t2, adopt, t3, [DoneAdopting], u);
    ReachesCons(t1, SwapDone, t2, adopt + [DoneAdopting], u);
    ReachesConcat(t, work, t1, [SwapDone] + (adopt + [DoneAdopting]), u);
    steps := work + ([SwapDone] + (adopt + [DoneAdopting]));
  }

  /**
    From every reachable state between events, with room under the limit, a server
    that is started if it is not yet can serve one more client: the sockets in the
    line and the next one accepted become connections.
   */
  lemma ClientServed(s: State, run: seq<Step>, t: State) returns (steps: seq<Step>, u: State)
    requires Init(s) && Reaches(s, run, t) && t.pc.Idle? && |t.conns| + |Pipeline(t)| < t.max
    ensures Reaches(t, steps, u) && u.started && u.conns == t.conns + ToSet(Pipeline(t)) + {t.accepted}
    ensures u.adopted == t.adopted + Pipeline(t) + [t.accepted] && u.released == t.released
  {
    var first, m := StartedServer(s, run, t);
    ReachesConcat(s, run, t, first, m);
    var enter, n := Enter(s, run + first, m);
    ReachesConcat(t, first, m, enter, n);
    ReachesConcat(s, run, t, first + enter, n);
    var rest;
    rest, u := AdoptionPossible(s, run + (first + enter), n);
    ReachesConcat(t, first + enter, n, rest, u);
    steps := first + enter + rest;
    assert ToSet(Pipeline(t) + [t.accepted]) == ToSet(Pipeline(t)) + {t.accepted};
    ConcatAssoc(t.adopted, Pipeline(t), [t.accepted]);
  }

  lemma StartedServer(s: State, run: seq<Step>, t: State) returns (steps: seq<Step>, m: State)
    requires Init(s) && Reaches(s, run, t) && t.pc.Idle?
    ensures Reaches(t, steps, m) && m.started && m.pc.Idle? && Pipeline(m) == Pipeline(t)
    ensures m.conns == t.conns && m.adopted == t.adopted && m.released == t.released
    ensures m.accepted == t.accepted && m.max == t.max
  {
    if t.started {
      steps, m := [], t;
    } else {
      steps, m := [Start], Apply(t, Start);
      assert [Start][1..] == [];
    }
  }

  lemma Enter(s: State, run: seq<Step>, t: State) returns (steps: seq<Step>, m: State)
    requires Init(s) && Reaches(s, run, t) && t.pc.Idle? && t.started && |t.conns| + |Pipeline(t)| < t.max
    ensures Reaches(t, steps, m) && m.started && m.pc.Idle? && Pipeline(m) == Pipeline(t) + [t.accepted]
    ensures m.conns == t.conns && m.adopted == t.adopted && m.released == t.released
  {
    AdmittedIff(s, run, t);
    assert Apply(t, CheckLimit).pc.Accepting? by {
      InitInv(s);
      RunInv(s, run, t);
      EntersWithRoom(t);
    }
    m := Apply(Apply(t, CheckLimit), PushPending);
    assert [PushPending][1..] == [];
    ReachesCons(t, CheckLimit, Apply(t, CheckLimit), [PushPending], m);
    steps := [CheckLimit] + [PushPending];
    assert Pipeline(m) == Pipeline(t) + [t.accepted];
  }

  // ---------------------------------------------------------------------
  // Stop returns
  // ---------------------------------------------------------------------

  predicate WorkerStep(step: Step) { step.WorkerTake? || step.WorkerFinish? || step.WorkerExit? }

  ghost predicate AllWorker(steps: seq<Step>) { forall i :: 0 <= i < |steps| ==> WorkerStep(steps[i]) }

  /** The worker can always run to its end once it has been told to stop, whatever the handshakes do. */
  lemma {:induction false} WorkerEnds(s: State, outcome: bool) returns (steps: seq<Step>, t: State)
    requires s.stopping && s.workerAlive
    ensures Reaches(s, steps, t) && AllWorker(steps) && !t.workerAlive && t.pc == s.pc
    ensures t.pending == [] && t.current.None? && t.done == s.done && t.ready == s.ready && t.started == s.started
    decreases |s.pending|, |One(s.current)|
  {
    var step := if s.current.Some? then WorkerFinish(outcome) else if s.pending != [] then WorkerTake else WorkerExit;
    var m := Apply(s, step);
    if step.WorkerExit? {
      steps, t := [step], m;
      assert [step][1..] == [];
    } else {
      var rest;
      rest, t := WorkerEnds(m, outcome);
      ReachesCons(s, step, m, rest, t);
      steps := [step] + rest;
    }
  }

  /** From every reachable state in which Stop waits for the worker, the worker alone lets it go on. */
  lemma StopReturns(s: State, run: seq<Step>, t: State, outcome: bool) returns (steps: seq<Step>, u: State)
    requires Init(s) && Reaches(s, run, t) && t.pc.Joining?
    ensures Reaches(t, steps, u) && AllWorker(steps) && Enabled(u, StopEnd)
    ensures var v := Apply(u, StopEnd);
      v.pc == t.pc.resume && !v.started && v.conns == {} && Pipeline(v) == InHand(t.pc) + v.ready
  {
    InitInv(s);
    RunInv(s, run, t);
    if t.workerAlive {
      steps, u := WorkerEnds(t, outcome);
    } else {
      steps, u := [], t;
    }
  }
}
