/**
  What the calls of the loop's interface lead to, over whole runs, said of the calls
  themselves: which callbacks run after which AddFd, AddTimer, AddOneShotTimer,
  RemoveFd and RemoveTimer, and which timers the loop owns.
 */
module LoopActions {
  import opened Basics
  import opened EventLoop

  /** The call registers this descriptor. */
  predicate Registers(a: Action, fd: int) {
    (a.AddFd? && a.fd == fd) || (a.AddTimer? && a.tfd == fd) || (a.AddOneShotTimer? && a.tfd == fd)
  }

  /** The registration that a call makes. */
  predicate Makes(a: Action, r: Reg) { Registers(a, r.fd) && r.oneShot == a.AddOneShotTimer? }

  /** What the record of a call is followed by. */
  ghost predicate Followed(trace: seq<Event>, i: nat)
    requires i < |trace| && trace[i].Did?
  {
    match trace[i].action
    case Stop => true
    case RemoveFd(fd) => i + 1 < |trace| && trace[i + 1] == Removed(fd)
    case RemoveTimer(tfd) => i + 1 < |trace| && trace[i + 1] == Removed(tfd)
    case a => i + 1 < |trace| && trace[i + 1].Added? && Makes(a, trace[i + 1].reg)
  }

  /** Calls have the effect they should, and nothing is registered without one. */
  ghost predicate Recorded(trace: seq<Event>) {
    && (forall i :: 0 <= i < |trace| && trace[i].Did? ==> Followed(trace, i))
    && (forall k :: 0 <= k < |trace| && trace[k].Added? ==>
          k > 0 && trace[k - 1].Did? && Makes(trace[k - 1].action, trace[k].reg))
  }

  /** The timers added, less those removed or gone off. */
  function Owned(trace: seq<Event>): seq<int> {
    if trace == [] then []
    else
      var before, e := Owned(trace[..|trace| - 1]), trace[|trace| - 1];
      if e.Did? && e.action.AddTimer? then before + [e.action.tfd]
      else if e.Did? && e.action.AddOneShotTimer? then before + [e.action.tfd]
      else if e.Did? && e.action.RemoveTimer? then EraseFirst(before, e.action.tfd)
      else if e.Fired? && e.reg.oneShot then EraseFirst(before, e.reg.fd)
      else before
  }

  lemma OwnedSnoc(trace: seq<Event>, e: Event)
    ensures var before := Owned(trace);
      Owned(trace + [e]) ==
      if e.Did? && (e.action.AddTimer? || e.action.AddOneShotTimer?) then before + [e.action.tfd]
      else if e.Did? && e.action.RemoveTimer? then EraseFirst(before, e.action.tfd)
      else if e.Fired? && e.reg.oneShot then EraseFirst(before, e.reg.fd)
      else before
  {
    assert (trace + [e])[..|trace|] == trace;
  }

  ghost predicate Logged(s: Loop) { Recorded(s.trace) && s.timers == Owned(s.trace) }

  // ---------------------------------------------------------------------
  // Every step keeps the log right
  // ---------------------------------------------------------------------

  lemma RecordedOther(trace: seq<Event>, e: Event)
    requires Recorded(trace) && !e.Did? && !e.Added?
    ensures Recorded(trace + [e])
  {
    var all := trace + [e];
    forall i | 0 <= i < |all| && all[i].Did?
      ensures Followed(all, i)
    {
      assert Followed(trace, i);
    }
  }

  lemma RecordedStop(trace: seq<Event>)
    requires Recorded(trace)
    ensures Recorded(trace + [Did(Stop)])
  {
    var all := trace + [Did(Stop)];
    forall i | 0 <= i < |all| && all[i].Did?
      ensures Followed(all, i)
    {
      if i < |trace| {
        assert Followed(trace, i);
      }
    }
  }

  lemma RecordedCall(trace: seq<Event>, a: Action, e: Event)
    requires Recorded(trace)
    requires (e.Added? && Makes(a, e.reg)) || (e.Removed? && (a == RemoveFd(e.fd) || a == RemoveTimer(e.fd)))
    ensures Recorded(trace + [Did(a)] + [e])
  {
    var all := trace + [Did(a)] + [e];
    assert all[|trace|] == Did(a) && all[|trace| + 1] == e;
    forall i | 0 <= i < |all| && all[i].Did?
      ensures Followed(all, i)
    {
      if i < |trace| {
        assert Followed(trace, i);
      }
    }
  }

  lemma ActLogged(s: Loop, a: Action)
    requires Logged(s)
    ensures Logged(Act(s, a))
  {
    var t := Act(s, a);
    OwnedSnoc(s.trace, Did(a));
    if a.Stop? {
      RecordedStop(s.trace);
    } else {
      var e := t.trace[|s.trace| + 1];
      assert t.trace == s.trace + [Did(a)] + [e];
      RecordedCall(s.trace, a, e);
      OwnedSnoc(s.trace + [Did(a)], e);
    }
  }

  lemma {:induction false} ActAllLogged(s: Loop, actions: seq<Action>)
    requires Logged(s)
    ensures Logged(ActAll(s, actions))
    decreases |actions|
  {
    if actions != [] {
      ActLogged(s, actions[0]);
      ActAllLogged(Act(s, actions[0]), actions[1..]);
    }
  }

  lemma FireLogged(s: Loop, reg: Reg, cb: Callback)
    requires Logged(s)
    ensures Logged(Fire(s, reg, cb))
  {
    var s1 := s.(trace := s.trace + [Fired(reg)]);
    RecordedOther(s.trace, Fired(reg));
    OwnedSnoc(s.trace, Fired(reg));
    if reg.oneShot {
      RecordedOther(s1.trace, Removed(reg.fd));
      OwnedSnoc(s1.trace, Removed(reg.fd));
      ActAllLogged(DropTimer(s1, reg.fd), cb.actions);
    } else {
      ActAllLogged(s1, cb.actions);
    }
  }

  lemma {:induction false} DispatchLogged(s: Loop, idx: seq<nat>, revents: nat -> int, script: nat -> Callback, i: nat)
    requires i <= |idx| && Logged(s)
    ensures Logged(Dispatch(s, idx, revents, script, i).loop)
    decreases |idx| - i
  {
    if i < |idx| && s.running {
      if Due(s, idx, revents, i) {
        var reg := s.entries[idx[i]].reg;
        FireLogged(s, reg, script(i));
        if !script(i).throws {
          DispatchLogged(Fire(s, reg, script(i)), idx, revents, script, i + 1);
        }
      } else {
        DispatchLogged(s, idx, revents, script, i + 1);
      }
    }
  }

  lemma NextLogged(s: Loop, step: Step)
    requires Logged(s)
    ensures Logged(Next(s, step))
  {
    match step
    case Outside(action) => ActLogged(s, action);
    case Polled(revents, script) =>
      if s.running {
        RecordedOther(s.trace, RoundStart);
        OwnedSnoc(s.trace, RoundStart);
        DispatchLogged(s.(trace := s.trace + [RoundStart]), Snapshot(s.entries), revents, script, 0);
      }
    case _ =>
  }

  lemma {:induction false} RunLogged(s: Loop, steps: seq<Step>)
    requires Logged(s)
    ensures Logged(Run(s, steps))
    decreases |steps|
  {
    if steps != [] {
      NextLogged(s, steps[0]);
      RunLogged(Next(s, steps[0]), steps[1..]);
    }
  }

  /** In every run the loop owns exactly the timers added and neither removed nor gone off. */
  lemma TimersOwned(steps: seq<Step>)
    ensures Run(EMPTY, steps).timers == Owned(Run(EMPTY, steps).trace)
  {
    RunLogged(EMPTY, steps);
  }

  // ---------------------------------------------------------------------
  // Calls and callbacks
  // ---------------------------------------------------------------------

  /** No call registers the descriptor strictly between two points of the record. */
  ghost predicate NoneRegisters(trace: seq<Event>, fd: int, i: int, n: int) {
    forall k :: i < k < n && 0 <= k < |trace| && trace[k].Did? ==> !Registers(trace[k].action, fd)
  }

  /** No entry has the descriptor at this point of the record. */
  ghost predicate Unregistered(trace: seq<Event>, fd: int, n: nat)
    requires n <= |trace|
  {
    forall r :: r in Registered(trace[..n]) ==> r.fd != fd
  }

  /** The call that made a registration, and nothing has removed it since. */
  lemma Origin(trace: seq<Event>, r: Reg, n: nat) returns (a: nat)
    requires Recorded(trace) && n <= |trace| && r in Registered(trace[..n])
    ensures 0 < a < n && Standing(trace, r, a, n) && trace[a - 1].Did? && Makes(trace[a - 1].action, r)
  {
    RegisteredIff(trace, r, n);
    a :| Standing(trace, r, a, n);
  }

  /** A descriptor once removed stays unregistered until a call registers it. */
  lemma StaysUnregistered(trace: seq<Event>, fd: int, i: nat, n: nat)
    requires Recorded(trace) && i < n <= |trace| && trace[i] == Removed(fd) && NoneRegisters(trace, fd, i, n)
    ensures Unregistered(trace, fd, n)
  {
    forall r | r in Registered(trace[..n])
      ensures r.fd != fd
    {
      var a := Origin(trace, r, n);
      assert a - 1 <= i ==> a < i || a == i || a == i + 1;
    }
  }

  /**
    In every run, after RemoveFd or RemoveTimer has been called for a descriptor, no
    entry has it and no callback runs for it until a call registers it again.
   */
  lemma RemovedIsQuiet(steps: seq<Step>, i: nat, n: nat, fd: int)
    requires var trace := Run(EMPTY, steps).trace;
      && i < n <= |trace| && (trace[i] == Did(RemoveFd(fd)) || trace[i] == Did(RemoveTimer(fd)))
      && NoneRegisters(trace, fd, i, n)
    ensures var trace := Run(EMPTY, steps).trace;
      && i + 1 < |trace| && (i + 1 < n ==> Unregistered(trace, fd, n))
      && forall c :: i < c < n && trace[c].Fired? ==> trace[c].reg.fd != fd
  {
    RunInv(EMPTY, steps);
    RunLogged(EMPTY, steps);
    assert Followed(Run(EMPTY, steps).trace, i);
    QuietFrom(Run(EMPTY, steps).trace, i + 1, n, fd);
  }

  /** From a removal on, until a call registers the descriptor: no entry and no callback for it. */
  lemma QuietFrom(trace: seq<Event>, i: nat, n: nat, fd: int)
    requires WellTraced(trace) && Recorded(trace)
    requires i < |trace| && trace[i] == Removed(fd) && n <= |trace| && NoneRegisters(trace, fd, i, n)
    ensures forall m :: i < m <= n ==> Unregistered(trace, fd, m)
    ensures forall c :: i < c < n && trace[c].Fired? ==> trace[c].reg.fd != fd
  {
    forall m | i < m <= n
      ensures Unregistered(trace, fd, m)
    {
      StaysUnregistered(trace, fd, i, m);
    }
    forall c | i < c < n && trace[c].Fired?
      ensures trace[c].reg.fd != fd
    {
      assert FiredOk(trace, c);
      StaysUnregistered(trace, fd, i, c);
    }
  }

  /** An entry for the descriptor, while no other call registers it, is the one the call at i made. */
  lemma OnlyThatOne(trace: seq<Event>, i: nat, n: nat, r: Reg)
    requires Recorded(trace) && i < n <= |trace| && trace[i].Did? && Registers(trace[i].action, r.fd)
    requires Unregistered(trace, r.fd, i) && NoneRegisters(trace, r.fd, i, n) && r in Registered(trace[..n])
    ensures i + 1 < n && Standing(trace, r, i + 1, n) && Makes(trace[i].action, r)
  {
    var a := Origin(trace, r, n);
    if a <= i {
      assert trace[a].Added?;
      assert Standing(trace, r, a, i);
      RegisteredIff(trace, r, i);
      assert false;
    }
  }

  /**
    In every run, between an AddOneShotTimer for a descriptor not registered at that
    moment and the next call that registers it, its callback runs at most once; with
    that the timer is removed, and no entry for it is left.
   */
  lemma OneShotFiresOnce(steps: seq<Step>, i: nat, c: nat, n: nat, tfd: int)
    requires var trace := Run(EMPTY, steps).trace;
      && i < c < n <= |trace| && trace[i] == Did(AddOneShotTimer(tfd)) && Unregistered(trace, tfd, i)
      && NoneRegisters(trace, tfd, i, n) && trace[c].Fired? && trace[c].reg.fd == tfd
    ensures var trace := Run(EMPTY, steps).trace;
      && c + 1 < |trace| && trace[c + 1] == Removed(tfd)
      && (forall d :: c < d < n && trace[d].Fired? ==> trace[d].reg.fd != tfd)
      && (forall m :: c + 1 < m <= n ==> Unregistered(trace, tfd, m))
  {
    RunInv(EMPTY, steps);
    RunLogged(EMPTY, steps);
    OneShotRemoved(Run(EMPTY, steps).trace, i, c, n, tfd);
    QuietFrom(Run(EMPTY, steps).trace, c + 1, n, tfd);
  }

  lemma OneShotRemoved(trace: seq<Event>, i: nat, c: nat, n: nat, tfd: int)
    requires WellTraced(trace) && Recorded(trace)
    requires i < c < n <= |trace| && trace[i] == Did(AddOneShotTimer(tfd)) && Unregistered(trace, tfd, i)
    requires NoneRegisters(trace, tfd, i, n) && trace[c].Fired? && trace[c].reg.fd == tfd
    ensures c + 1 < |trace| && trace[c + 1] == Removed(tfd)
  {
    assert FiredOk(trace, c);
    OnlyThatOne(trace, i, c, trace[c].reg);
  }

  // ---------------------------------------------------------------------
  // What was registered does fire
  // ---------------------------------------------------------------------

  /** The registrations whose callbacks have run, in order. */
  function Runs(trace: seq<Event>): seq<Reg> {
    if trace == [] then []
    else
      var before, e := Runs(trace[..|trace| - 1]), trace[|trace| - 1];
      if e.Fired? then before + [e.reg] else before
  }

  lemma RunsSnoc(trace: seq<Event>, e: Event)
    ensures Runs(trace + [e]) == if e.Fired? then Runs(trace) + [e.reg] else Runs(trace)
  {
    assert (trace + [e])[..|trace|] == trace;
  }

  lemma ActRuns(s: Loop, a: Action)
    ensures Runs(Act(s, a).trace) == Runs(s.trace)
  {
    RunsSnoc(s.trace, Did(a));
    if !a.Stop? {
      var e := Act(s, a).trace[|s.trace| + 1];
      assert Act(s, a).trace == s.trace + [Did(a)] + [e];
      RunsSnoc(s.trace + [Did(a)], e);
    }
  }

  lemma {:induction false} ActAllRuns(s: Loop, actions: seq<Action>)
    ensures Runs(ActAll(s, actions).trace) == Runs(s.trace)
    decreases |actions|
  {
    if actions != [] {
      ActRuns(s, actions[0]);
      ActAllRuns(Act(s, actions[0]), actions[1..]);
    }
  }

  lemma FireRuns(s: Loop, reg: Reg, cb: Callback)
    ensures Runs(Fire(s, reg, cb).trace) == Runs(s.trace) + [reg]
  {
    var s1 := s.(trace := s.trace + [Fired(reg)]);
    RunsSnoc(s.trace, Fired(reg));
    RunsSnoc(s1.trace, Removed(reg.fd));
    ActAllRuns(if reg.oneShot then DropTimer(s1, reg.fd) else s1, cb.actions);
  }

  /** The registration at a position of a round. */
  function RegAt(entries: seq<Entry>, idx: seq<nat>, p: nat): Reg {
    if p < |idx| && idx[p] < |entries| then entries[idx[p]].reg else Reg(0, 0, false)
  }

  function RegsAt(entries: seq<Entry>, idx: seq<nat>, positions: seq<nat>): seq<Reg> {
    if positions == [] then [] else [RegAt(entries, idx, positions[0])] + RegsAt(entries, idx, positions[1..])
  }

  lemma {:induction false} RegsKept(es: seq<Entry>, fs: seq<Entry>, idx: seq<nat>, positions: seq<nat>)
    requires |es| <= |fs| && forall k :: 0 <= k < |es| ==> fs[k].reg == es[k].reg
    requires forall q :: 0 <= q < |idx| ==> idx[q] < |es|
    ensures RegsAt(es, idx, positions) == RegsAt(fs, idx, positions)
    decreases |positions|
  {
    if positions != [] {
      RegsKept(es, fs, idx, positions[1..]);
    }
  }

  lemma RegsCons(es: seq<Entry>, idx: seq<nat>, i: nat, rest: seq<nat>)
    ensures RegsAt(es, idx, [i] + rest) == [RegAt(es, idx, i)] + RegsAt(es, idx, rest)
  {
    assert ([i] + rest)[1..] == rest;
  }

  /** The positions a round dispatches are the callbacks it runs, in that order. */
  lemma {:induction false} DispatchRuns(s: Loop, idx: seq<nat>, revents: nat -> int, script: nat -> Callback, i: nat)
    requires i <= |idx| && forall q :: 0 <= q < |idx| ==> idx[q] < |s.entries|
    ensures var d := Dispatch(s, idx, revents, script, i);
      Runs(d.loop.trace) == Runs(s.trace) + RegsAt(s.entries, idx, d.fired)
    decreases |idx| - i
  {
    if i < |idx| && s.running {
      if Due(s, idx, revents, i) {
        var reg := s.entries[idx[i]].reg;
        FireEffect(s, reg, script(i));
        FireRuns(s, reg, script(i));
        if script(i).throws {
          assert [i] + [] == [i];
          RegsCons(s.entries, idx, i, []);
        } else {
          var t := Fire(s, reg, script(i));
          DispatchRuns(t, idx, revents, script, i + 1);
          var rest := Dispatch(t, idx, revents, script, i + 1).fired;
          RegsCons(s.entries, idx, i, rest);
          RegsKept(s.entries, t.entries, idx, rest);
          ConcatAssoc(Runs(s.trace), [reg], RegsAt(s.entries, idx, rest));
        }
      } else {
        DispatchRuns(s, idx, revents, script, i + 1);
      }
    } else {
      assert Runs(s.trace) + [] == Runs(s.trace);
    }
  }

  lemma RoundRuns(s: Loop, revents: nat -> int, script: nat -> Callback)
    ensures var d := Round(s, revents, script);
      Runs(d.loop.trace) == Runs(s.trace) + RegsAt(s.entries, Snapshot(s.entries), d.fired)
  {
    RunsSnoc(s.trace, RoundStart);
    DispatchRuns(s.(trace := s.trace + [RoundStart]), Snapshot(s.entries), revents, script, 0);
  }

  /** A call that registers a descriptor with a callback. */
  predicate RegistersCallback(a: Action, fd: int) {
    (a.AddFd? && a.fd == fd && a.hasCb) || (a.AddTimer? && a.tfd == fd && a.hasCb) || (a.AddOneShotTimer? && a.tfd == fd)
  }

  /** None of these calls removes the descriptor or stops the loop. */
  predicate Spares(actions: seq<Action>, fd: int) {
    RemoveFd(fd) !in actions && RemoveTimer(fd) !in actions && Stop !in actions
  }

  /** The entry that a call makes, and that it is still there after calls that spare it. */
  lemma AddedStays(s: Loop, a: Action, more: seq<Action>, fd: int)
    requires RegistersCallback(a, fd) && Spares(more, fd)
    ensures var t, k := ActAll(Act(s, a), more), |s.entries|;
      && k < |t.entries| && t.entries[k].reg == Reg(s.nextId, fd, a.AddOneShotTimer?)
      && !t.entries[k].dead && t.entries[k].hasCb && t.running == s.running
      && t.entries[k].events == (if a.AddFd? then a.events else POLLIN)
  {
    ActAllEffect(Act(s, a), more);
  }

  /**
    No callback run earlier in the round removed the descriptor, stopped the loop or
    threw, or was that of a one-shot timer with the same descriptor.
   */
  ghost predicate Unhindered(entries: seq<Entry>, idx: seq<nat>, script: nat -> Callback, fired: seq<nat>, p: nat, fd: int) {
    forall j :: j in fired && j < p ==>
      && Spares(script(j).actions, fd) && !script(j).throws
      && !(RegAt(entries, idx, j).oneShot && RegAt(entries, idx, j).fd == fd)
  }

  lemma NotPrevented(t: Loop, idx: seq<nat>, script: nat -> Callback, fired: seq<nat>, p: nat, fd: int)
    requires p < |idx| && idx[p] < |t.entries| && t.entries[idx[p]].reg.fd == fd
    requires Unhindered(t.entries, idx, script, fired, p, fd)
    ensures !Prevented(t, idx, script, fired, p)
  {
    forall j | j in fired && j < p && idx[j] < |t.entries|
      ensures !Kills(t.entries[idx[j]].reg, script(j), fd) && !Ends(script(j))
    {
      assert RegAt(t.entries, idx, j) == t.entries[idx[j]].reg;
      assert Spares(script(j).actions, fd);
    }
  }

  /**
    After AddFd, AddTimer or AddOneShotTimer with a callback, and whatever other calls
    that spare the descriptor, the next round polls the entry; and if poll reports
    events for it and nothing hinders it, its callback is among those RoundRuns says
    the round runs.
   */
  lemma AddedFires(s: Loop, a: Action, more: seq<Action>, fd: int, revents: nat -> int, script: nat -> Callback)
      returns (p: nat)
    requires s.running && RegistersCallback(a, fd) && Spares(more, fd)
    ensures var t := ActAll(Act(s, a), more);
      var idx, fired := Snapshot(t.entries), Round(t, revents, script).fired;
      && p < |idx| && RegAt(t.entries, idx, p) == Reg(s.nextId, fd, a.AddOneShotTimer?)
      && (revents(p) != 0 && Unhindered(t.entries, idx, script, fired, p, fd) ==> p in fired)
  {
    var t := ActAll(Act(s, a), more);
    var idx := Snapshot(t.entries);
    AddedStays(s, a, more, fd);
    assert |s.entries| in idx;
    p :| 0 <= p < |idx| && idx[p] == |s.entries|;
    if revents(p) != 0 && Unhindered(t.entries, idx, script, Round(t, revents, script).fired, p, fd) {
      NotPrevented(t, idx, script, Round(t, revents, script).fired, p, fd);
      RoundExact(t, revents, script);
    }
  }

  /** Run followed by a poll that returns is one round, whatever the loop was told before. */
  lemma BeginRuns(s: Loop, revents: nat -> int, script: nat -> Callback)
    ensures Next(Next(s, Begin), Polled(revents, script)) == Round(s.(running := true), revents, script).loop
  {}

  lemma {:induction false} EraseBehind(y: int, ys: seq<int>, x: int)
    requires y != x
    ensures EraseFirst([y] + ys, x) == [y] + EraseFirst(ys, x)
  {
    assert ([y] + ys)[1..] == ys;
  }

  /** RemoveTimer gives up the first of the timers with that descriptor, and no other. */
  lemma {:induction false} EraseFirstIs(before: seq<int>, x: int, behind: seq<int>)
    requires x !in before
    ensures EraseFirst(before + ([x] + behind), x) == before + behind
    decreases |before|
  {
    if before == [] {
      assert before + ([x] + behind) == [x] + behind && ([x] + behind)[1..] == behind && before + behind == behind;
    } else {
      var y, rest := before[0], before[1..];
      EraseFirstIs(rest, x, behind);
      EraseBehind(y, rest + ([x] + behind), x);
      assert before == [y] + rest;
      ConcatAssoc([y], rest, [x] + behind);
      ConcatAssoc([y], rest, behind);
    }
  }
}
