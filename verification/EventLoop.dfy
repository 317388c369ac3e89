/**
  The event loop: entries are appended, tombstoned and compacted while callbacks
  add and remove entries, reuse descriptor numbers, stop the loop or throw.

  poll is an arbitrary vector of revents per round; a callback is an arbitrary
  list of actions, possibly cut short by an exception.

  `trace` records what happened. The specification reads it with `Registered`:
  a plain list from which a removed descriptor disappears at once. The tombstone
  scheme is shown to keep exactly that list.
 */
module EventLoop {
  import opened Basics

  /** A registration; `id` tells apart entries that share a descriptor number. */
  datatype Reg = Reg(id: nat, fd: int, oneShot: bool)

  datatype Entry = Entry(reg: Reg, events: int, dead: bool, hasCb: bool)

  /** `Did` records a call of the loop's interface, ahead of what it brings about. */
  datatype Event = Added(reg: Reg) | Removed(fd: int) | Fired(reg: Reg) | RoundStart | Did(action: Action)

  datatype Loop = Loop(entries: seq<Entry>, timers: seq<int>, running: bool, nextId: nat, trace: seq<Event>)

  datatype Action =
    | AddFd(fd: int, events: int, hasCb: bool)
    | AddTimer(tfd: int, hasCb: bool)
    | AddOneShotTimer(tfd: int)
    | RemoveFd(fd: int)
    | RemoveTimer(tfd: int)
    | Stop

  datatype Callback = Callback(actions: seq<Action>, throws: bool)

  const POLLIN := 1

  // ---------------------------------------------------------------------
  // The operations
  // ---------------------------------------------------------------------

  function Append(s: Loop, fd: int, events: int, hasCb: bool, oneShot: bool): Loop {
    var reg := Reg(s.nextId, fd, oneShot);
    s.(entries := s.entries + [Entry(reg, events, false, hasCb)], nextId := s.nextId + 1,
       trace := s.trace + [Added(reg)])
  }

  function Bury(e: Entry, fd: int): Entry { if e.reg.fd == fd then e.(dead := true) else e }

  function BuryAll(es: seq<Entry>, fd: int): (r: seq<Entry>)
    ensures |r| == |es|
    ensures forall k :: 0 <= k < |es| ==> r[k] == Bury(es[k], fd)
  {
    if es == [] then [] else BuryAll(es[..|es| - 1], fd) + [Bury(es[|es| - 1], fd)]
  }

  function Drop(s: Loop, fd: int): Loop {
    s.(entries := BuryAll(s.entries, fd), trace := s.trace + [Removed(fd)])
  }

  /** erase of the first match, if any. */
  function EraseFirst(xs: seq<int>, x: int): seq<int> {
    if xs == [] then [] else if xs[0] == x then xs[1..] else [xs[0]] + EraseFirst(xs[1..], x)
  }

  function DropTimer(s: Loop, tfd: int): Loop {
    Drop(s, tfd).(timers := EraseFirst(s.timers, tfd))
  }

  function Act(s: Loop, a: Action): Loop { Effect(s.(trace := s.trace + [Did(a)]), a) }

  function Effect(s: Loop, a: Action): Loop {
    match a
    case AddFd(fd, events, hasCb) => Append(s, fd, events, hasCb, false)
    case AddTimer(tfd, hasCb) => Append(s.(timers := s.timers + [tfd]), tfd, POLLIN, hasCb, false)
    case AddOneShotTimer(tfd) => Append(s.(timers := s.timers + [tfd]), tfd, POLLIN, true, true)
    case RemoveFd(fd) => Drop(s, fd)
    case RemoveTimer(tfd) => DropTimer(s, tfd)
    case Stop => s.(running := false)
  }

  function ActAll(s: Loop, actions: seq<Action>): Loop
    decreases |actions|
  {
    if actions == [] then s else ActAll(Act(s, actions[0]), actions[1..])
  }

  /** A dispatch: a one-shot timer takes itself out first, then the callback proper runs. */
  function Fire(s: Loop, reg: Reg, cb: Callback): Loop {
    var s1 := s.(trace := s.trace + [Fired(reg)]);
    ActAll(if reg.oneShot then DropTimer(s1, reg.fd) else s1, cb.actions)
  }

  /** Indices of the entries that take part in poll. */
  function Snapshot(es: seq<Entry>): (idx: seq<nat>)
    ensures forall i :: 0 <= i < |idx| ==> idx[i] < |es| && !es[idx[i]].dead
    ensures forall i, j :: 0 <= i < j < |idx| ==> idx[i] < idx[j]
    ensures forall k :: 0 <= k < |es| && !es[k].dead ==> k in idx
  {
    if es == [] then []
    else
      var n := |es| - 1;
      var idx := Snapshot(es[..n]);
      if es[n].dead then idx else idx + [n]
  }

  /** Whether the i-th polled entry is due when its turn comes. */
  predicate Due(s: Loop, idx: seq<nat>, revents: nat -> int, i: nat)
    requires i < |idx|
  {
    idx[i] < |s.entries| && !s.entries[idx[i]].dead && revents(i) != 0 && s.entries[idx[i]].hasCb
  }

  /** The rest of a round: the state it leaves, the positions dispatched, an exception passed on. */
  datatype Dispatched = Dispatched(loop: Loop, fired: seq<nat>, threw: bool)

  function Dispatch(s: Loop, idx: seq<nat>, revents: nat -> int, script: nat -> Callback, i: nat): Dispatched
    requires i <= |idx|
    decreases |idx| - i
  {
    if i == |idx| || !s.running then Dispatched(s, [], false)
    else if Due(s, idx, revents, i) then
      var t := Fire(s, s.entries[idx[i]].reg, script(i));
      if script(i).throws then Dispatched(t, [i], true)
      else
        var d := Dispatch(t, idx, revents, script, i + 1);
        d.(fired := [i] + d.fired)
    else Dispatch(s, idx, revents, script, i + 1)
  }

  function Compact(es: seq<Entry>): seq<Entry> {
    if es == [] then []
    else
      var n := |es| - 1;
      if es[n].dead then Compact(es[..n]) else Compact(es[..n]) + [es[n]]
  }

  /** One iteration of Run, once poll has returned. */
  function Round(s: Loop, revents: nat -> int, script: nat -> Callback): Dispatched {
    var d := Dispatch(s.(trace := s.trace + [RoundStart]), Snapshot(s.entries), revents, script, 0);
    d.(loop := d.loop.(entries := Compact(d.loop.entries)))
  }

  // ---------------------------------------------------------------------
  // The specification: an ordinary list with immediate removal
  // ---------------------------------------------------------------------

  function Without(rs: seq<Reg>, fd: int): seq<Reg> {
    if rs == [] then []
    else
      var n := |rs| - 1;
      if rs[n].fd == fd then Without(rs[..n], fd) else Without(rs[..n], fd) + [rs[n]]
  }

  function After(before: seq<Reg>, e: Event): seq<Reg> {
    match e
    case Added(reg) => before + [reg]
    case Removed(fd) => Without(before, fd)
    case _ => before
  }

  function Registered(trace: seq<Event>): seq<Reg> {
    if trace == [] then [] else After(Registered(trace[..|trace| - 1]), trace[|trace| - 1])
  }

  /** The entries that are not tombstones. */
  function Live(es: seq<Entry>): seq<Reg> {
    if es == [] then []
    else
      var n := |es| - 1;
      if es[n].dead then Live(es[..n]) else Live(es[..n]) + [es[n].reg]
  }

  lemma {:induction false} LiveSnoc(es: seq<Entry>, e: Entry)
    ensures Live(es + [e]) == if e.dead then Live(es) else Live(es) + [e.reg]
  {
    assert (es + [e])[..|es|] == es;
  }

  lemma WithoutSnoc(rs: seq<Reg>, r: Reg, fd: int)
    ensures Without(rs + [r], fd) == if r.fd == fd then Without(rs, fd) else Without(rs, fd) + [r]
  {
    assert (rs + [r])[..|rs|] == rs;
  }

  lemma RegisteredSnoc(trace: seq<Event>, e: Event)
    ensures Registered(trace + [e]) == After(Registered(trace), e)
  {
    assert (trace + [e])[..|trace|] == trace;
  }

  lemma {:induction false} LiveBury(es: seq<Entry>, fd: int)
    ensures Live(BuryAll(es, fd)) == Without(Live(es), fd)
  {
    if es != [] {
      var n := |es| - 1;
      LiveBury(es[..n], fd);
      LiveSnoc(BuryAll(es[..n], fd), Bury(es[n], fd));
      if !es[n].dead {
        WithoutSnoc(Live(es[..n]), es[n].reg, fd);
      }
    }
  }

  lemma {:induction false} LiveCompact(es: seq<Entry>)
    ensures Live(Compact(es)) == Live(es)
    ensures forall e :: e in Compact(es) ==> !e.dead && e in es
    ensures forall e :: e in es && !e.dead ==> e in Compact(es)
  {
    if es != [] {
      var n := |es| - 1;
      LiveCompact(es[..n]);
      assert forall e :: e in es ==> e in es[..n] || e == es[n];
      if !es[n].dead {
        LiveSnoc(Compact(es[..n]), es[n]);
      }
    }
  }

  lemma {:induction false} LiveMember(es: seq<Entry>, r: Reg)
    ensures r in Live(es) <==> exists k :: 0 <= k < |es| && !es[k].dead && es[k].reg == r
  {
    if es != [] {
      var n := |es| - 1;
      LiveMember(es[..n], r);
      if r in Live(es[..n]) {
        var k :| 0 <= k < n && !es[..n][k].dead && es[..n][k].reg == r;
        assert !es[k].dead && es[k].reg == r;
      }
      if k :| 0 <= k < |es| && !es[k].dead && es[k].reg == r {
        if k < n {
          assert !es[..n][k].dead && es[..n][k].reg == r;
        }
      }
    }
  }

  // ---------------------------------------------------------------------
  // The invariant
  // ---------------------------------------------------------------------

  /** What was registered when the current round began, if one has. */
  function AtRoundStart(trace: seq<Event>): Option<seq<Reg>> {
    if trace == [] then None
    else
      var before := trace[..|trace| - 1];
      if trace[|trace| - 1].RoundStart? then Some(Registered(before)) else AtRoundStart(before)
  }

  lemma AtRoundStartSnoc(trace: seq<Event>, e: Event)
    ensures AtRoundStart(trace + [e]) == if e.RoundStart? then Some(Registered(trace)) else AtRoundStart(trace)
  {
    assert (trace + [e])[..|trace|] == trace;
  }

  /** After `before`, an entry may be dispatched: registered since the round began, and still. */
  ghost predicate MayFire(before: seq<Event>, reg: Reg) {
    var start := AtRoundStart(before);
    start.Some? && reg in start.value && reg in Registered(before)
  }

  ghost predicate FiredOk(trace: seq<Event>, c: nat)
    requires c < |trace| && trace[c].Fired?
  {
    && MayFire(trace[..c], trace[c].reg)
    && (trace[c].reg.oneShot ==> c + 1 < |trace| && trace[c + 1] == Removed(trace[c].reg.fd))
  }

  ghost predicate WellTraced(trace: seq<Event>) {
    forall c :: 0 <= c < |trace| && trace[c].Fired? ==> FiredOk(trace, c)
  }

  /** Registration numbers are given out once, in order. */
  ghost predicate FreshIds(trace: seq<Event>, nextId: nat) {
    && (forall a :: 0 <= a < |trace| && trace[a].Added? ==> trace[a].reg.id < nextId)
    && (forall a, b :: 0 <= a < b < |trace| && trace[a].Added? && trace[b].Added? ==> trace[a].reg.id < trace[b].reg.id)
  }

  ghost predicate Inv(s: Loop) {
    && Live(s.entries) == Registered(s.trace)
    && WellTraced(s.trace) && FreshIds(s.trace, s.nextId)
  }

  lemma WellTracedMore(trace: seq<Event>, more: seq<Event>)
    requires WellTraced(trace)
    requires forall k :: 0 <= k < |more| && more[k].Fired? ==> FiredOk(trace + more, |trace| + k)
    ensures WellTraced(trace + more)
  {
    var all := trace + more;
    forall c | 0 <= c < |all| && all[c].Fired?
      ensures FiredOk(all, c)
    {
      if c < |trace| {
        assert FiredOk(trace, c);
        assert all[..c] == trace[..c];
      } else {
        assert all[c] == more[c - |trace|];
      }
    }
  }

  /** Appending one event other than a dispatch. */
  lemma EventKept(s: Loop, e: Event)
    requires Live(s.entries) == Registered(s.trace) && WellTraced(s.trace) && !e.Fired?
    ensures WellTraced(s.trace + [e])
    ensures Registered(s.trace + [e]) == After(Live(s.entries), e)
    ensures !e.RoundStart? ==> AtRoundStart(s.trace + [e]) == AtRoundStart(s.trace)
  {
    WellTracedMore(s.trace, [e]);
    RegisteredSnoc(s.trace, e);
    AtRoundStartSnoc(s.trace, e);
  }

  lemma FreshIdsKept(trace: seq<Event>, nextId: nat, e: Event)
    requires FreshIds(trace, nextId) && (e.Added? ==> e.reg.id == nextId)
    ensures FreshIds(trace + [e], if e.Added? then nextId + 1 else nextId)
  {}

  /** Entries keep their index; only the tombstone flag changes, and only one way. */
  ghost predicate Grown(es: seq<Entry>, fs: seq<Entry>) {
    && |es| <= |fs|
    && forall k :: 0 <= k < |es| ==>
         fs[k].reg == es[k].reg && fs[k].hasCb == es[k].hasCb && (es[k].dead ==> fs[k].dead)
  }

  /** An action that removes descriptor fd. */
  predicate Removes(a: Action, fd: int) { a == RemoveFd(fd) || a == RemoveTimer(fd) }

  predicate RemovesAny(actions: seq<Action>, fd: int) { exists a :: a in actions && Removes(a, fd) }

  lemma AppendInv(s: Loop, fd: int, events: int, hasCb: bool, oneShot: bool)
    requires Inv(s)
    ensures var t := Append(s, fd, events, hasCb, oneShot);
      Inv(t) && Grown(s.entries, t.entries) && AtRoundStart(t.trace) == AtRoundStart(s.trace)
  {
    var reg := Reg(s.nextId, fd, oneShot);
    EventKept(s, Added(reg));
    FreshIdsKept(s.trace, s.nextId, Added(reg));
    LiveSnoc(s.entries, Entry(reg, events, false, hasCb));
  }

  lemma DropInv(s: Loop, fd: int)
    requires Inv(s)
    ensures var t := Drop(s, fd);
      Inv(t) && Grown(s.entries, t.entries) && AtRoundStart(t.trace) == AtRoundStart(s.trace)
  {
    EventKept(s, Removed(fd));
    FreshIdsKept(s.trace, s.nextId, Removed(fd));
    LiveBury(s.entries, fd);
  }

  lemma ActInv(s: Loop, a: Action)
    requires Inv(s)
    ensures Inv(Act(s, a)) && Grown(s.entries, Act(s, a).entries)
    ensures AtRoundStart(Act(s, a).trace) == AtRoundStart(s.trace)
  {
    EventKept(s, Did(a));
    FreshIdsKept(s.trace, s.nextId, Did(a));
    EffectInv(s.(trace := s.trace + [Did(a)]), a);
  }

  lemma EffectInv(s: Loop, a: Action)
    requires Inv(s)
    ensures Inv(Effect(s, a)) && Grown(s.entries, Effect(s, a).entries)
    ensures AtRoundStart(Effect(s, a).trace) == AtRoundStart(s.trace)
  {
    match a
    case AddFd(fd, events, hasCb) => AppendInv(s, fd, events, hasCb, false);
    case AddTimer(tfd, hasCb) => AppendInv(s.(timers := s.timers + [tfd]), tfd, POLLIN, hasCb, false);
    case AddOneShotTimer(tfd) => AppendInv(s.(timers := s.timers + [tfd]), tfd, POLLIN, true, true);
    case RemoveFd(fd) => DropInv(s, fd);
    case RemoveTimer(tfd) => DropInv(s, tfd);
    case Stop =>
  }

  /** The exact effect of one action on the entries there were, and on the flag. */
  lemma ActEffect(s: Loop, a: Action)
    ensures |s.entries| <= |Act(s, a).entries|
    ensures forall k :: 0 <= k < |s.entries| ==>
      Act(s, a).entries[k] == s.entries[k].(dead := s.entries[k].dead || Removes(a, s.entries[k].reg.fd))
    ensures Act(s, a).running == (s.running && a != Stop)
  {}

  lemma {:induction false} ActAllInv(s: Loop, actions: seq<Action>)
    requires Inv(s)
    ensures Inv(ActAll(s, actions)) && Grown(s.entries, ActAll(s, actions).entries)
    ensures AtRoundStart(ActAll(s, actions).trace) == AtRoundStart(s.trace)
    decreases |actions|
  {
    if actions != [] {
      ActInv(s, actions[0]);
      ActAllInv(Act(s, actions[0]), actions[1..]);
    }
  }

  lemma {:induction false} ActAllEffect(s: Loop, actions: seq<Action>)
    ensures |s.entries| <= |ActAll(s, actions).entries|
    ensures forall k :: 0 <= k < |s.entries| ==>
      ActAll(s, actions).entries[k] ==
      s.entries[k].(dead := s.entries[k].dead || RemovesAny(actions, s.entries[k].reg.fd))
    ensures ActAll(s, actions).running == (s.running && Stop !in actions)
    decreases |actions|
  {
    if actions != [] {
      ActEffect(s, actions[0]);
      ActAllEffect(Act(s, actions[0]), actions[1..]);
      forall fd
        ensures RemovesAny(actions, fd) == (Removes(actions[0], fd) || RemovesAny(actions[1..], fd))
      {
        assert forall a :: a in actions ==> a == actions[0] || a in actions[1..];
      }
    }
  }

  /** The descriptor goes away in the course of a dispatch. */
  predicate Kills(reg: Reg, cb: Callback, fd: int) {
    (reg.oneShot && reg.fd == fd) || RemovesAny(cb.actions, fd)
  }

  /** The dispatch ends the round. */
  predicate Ends(cb: Callback) { cb.throws || Stop in cb.actions }

  lemma FireEffect(s: Loop, reg: Reg, cb: Callback)
    ensures |s.entries| <= |Fire(s, reg, cb).entries|
    ensures forall k :: 0 <= k < |s.entries| ==>
      Fire(s, reg, cb).entries[k] ==
      s.entries[k].(dead := s.entries[k].dead || Kills(reg, cb, s.entries[k].reg.fd))
    ensures Fire(s, reg, cb).running == (s.running && Stop !in cb.actions)
  {
    var s1 := s.(trace := s.trace + [Fired(reg)]);
    ActAllEffect(if reg.oneShot then DropTimer(s1, reg.fd) else s1, cb.actions);
  }

  /** The record of a dispatch; for a one-shot timer its removal follows at once. */
  lemma FiredTraced(trace: seq<Event>, reg: Reg, more: seq<Event>)
    requires WellTraced(trace) && MayFire(trace, reg)
    requires more == [Fired(reg)] + if reg.oneShot then [Removed(reg.fd)] else []
    ensures WellTraced(trace + more)
  {
    var n := |trace|;
    assert (trace + more)[..n] == trace && (trace + more)[n] == Fired(reg);
    assert FiredOk(trace + more, n);
    WellTracedMore(trace, more);
  }

  lemma FiredPlain(s: Loop, reg: Reg)
    requires Inv(s) && MayFire(s.trace, reg) && !reg.oneShot
    ensures var s1 := s.(trace := s.trace + [Fired(reg)]);
      Inv(s1) && AtRoundStart(s1.trace) == AtRoundStart(s.trace)
  {
    FiredTraced(s.trace, reg, [Fired(reg)]);
    RegisteredSnoc(s.trace, Fired(reg));
    AtRoundStartSnoc(s.trace, Fired(reg));
    FreshIdsKept(s.trace, s.nextId, Fired(reg));
  }

  lemma FiredOneShot(s: Loop, reg: Reg)
    requires Inv(s) && MayFire(s.trace, reg) && reg.oneShot
    ensures var s2 := DropTimer(s.(trace := s.trace + [Fired(reg)]), reg.fd);
      Inv(s2) && Grown(s.entries, s2.entries) && AtRoundStart(s2.trace) == AtRoundStart(s.trace)
  {
    var fired := s.trace + [Fired(reg)];
    var more := [Fired(reg), Removed(reg.fd)];
    FiredTraced(s.trace, reg, more);
    assert fired + [Removed(reg.fd)] == s.trace + more;
    RegisteredSnoc(s.trace, Fired(reg));
    RegisteredSnoc(fired, Removed(reg.fd));
    AtRoundStartSnoc(s.trace, Fired(reg));
    AtRoundStartSnoc(fired, Removed(reg.fd));
    FreshIdsKept(s.trace, s.nextId, Fired(reg));
    FreshIdsKept(fired, s.nextId, Removed(reg.fd));
    LiveBury(s.entries, reg.fd);
  }

  lemma FireInv(s: Loop, reg: Reg, cb: Callback)
    requires Inv(s) && MayFire(s.trace, reg)
    ensures Inv(Fire(s, reg, cb)) && Grown(s.entries, Fire(s, reg, cb).entries)
    ensures AtRoundStart(Fire(s, reg, cb).trace) == AtRoundStart(s.trace)
  {
    var s1 := s.(trace := s.trace + [Fired(reg)]);
    if reg.oneShot {
      FiredOneShot(s, reg);
      ActAllInv(DropTimer(s1, reg.fd), cb.actions);
    } else {
      FiredPlain(s, reg);
      ActAllInv(s1, cb.actions);
    }
  }

  // ---------------------------------------------------------------------
  // A round
  // ---------------------------------------------------------------------

  /** An entry that is due when its turn comes was registered when the round began, and is still. */
  lemma DueMayFire(s0: Loop, s: Loop, k: nat)
    requires Live(s.entries) == Registered(s.trace) && Grown(s0.entries, s.entries)
    requires AtRoundStart(s.trace) == Some(Live(s0.entries))
    requires k < |s0.entries| && !s0.entries[k].dead && !s.entries[k].dead
    ensures MayFire(s.trace, s.entries[k].reg)
  {
    LiveMember(s.entries, s.entries[k].reg);
    LiveMember(s0.entries, s.entries[k].reg);
  }

  lemma GrownTransitive(es: seq<Entry>, fs: seq<Entry>, gs: seq<Entry>)
    requires Grown(es, fs) && Grown(fs, gs)
    ensures Grown(es, gs)
  {}

  lemma DispatchOne(s0: Loop, s: Loop, k: nat, cb: Callback)
    requires Inv(s) && Grown(s0.entries, s.entries) && AtRoundStart(s.trace) == Some(Live(s0.entries))
    requires k < |s0.entries| && !s0.entries[k].dead && !s.entries[k].dead
    ensures var t := Fire(s, s.entries[k].reg, cb);
      Inv(t) && Grown(s0.entries, t.entries) && AtRoundStart(t.trace) == Some(Live(s0.entries))
  {
    DueMayFire(s0, s, k);
    FireInv(s, s.entries[k].reg, cb);
    GrownTransitive(s0.entries, s.entries, Fire(s, s.entries[k].reg, cb).entries);
  }

  lemma {:induction false} DispatchInv(
      s0: Loop, s: Loop, idx: seq<nat>, revents: nat -> int, script: nat -> Callback, i: nat)
    requires i <= |idx| && Inv(s) && Grown(s0.entries, s.entries)
    requires forall p :: 0 <= p < |idx| ==> idx[p] < |s0.entries| && !s0.entries[idx[p]].dead
    requires AtRoundStart(s.trace) == Some(Live(s0.entries))
    ensures Inv(Dispatch(s, idx, revents, script, i).loop)
    decreases |idx| - i
  {
    if i < |idx| && s.running {
      if Due(s, idx, revents, i) {
        DispatchOne(s0, s, idx[i], script(i));
        if !script(i).throws {
          DispatchInv(s0, Fire(s, s.entries[idx[i]].reg, script(i)), idx, revents, script, i + 1);
        }
      } else {
        DispatchInv(s0, s, idx, revents, script, i + 1);
      }
    }
  }

  lemma RoundInv(s: Loop, revents: nat -> int, script: nat -> Callback)
    requires Inv(s)
    ensures Inv(Round(s, revents, script).loop)
    ensures forall e :: e in Round(s, revents, script).loop.entries ==> !e.dead
  {
    var s1 := s.(trace := s.trace + [RoundStart]);
    EventKept(s, RoundStart);
    AtRoundStartSnoc(s.trace, RoundStart);
    FreshIdsKept(s.trace, s.nextId, RoundStart);
    DispatchInv(s, s1, Snapshot(s.entries), revents, script, 0);
    var d := Dispatch(s1, Snapshot(s.entries), revents, script, 0);
    LiveCompact(d.loop.entries);
  }

  /** Some dispatch before position p, of those listed, removed its descriptor or ended the round. */
  predicate Prevented(s: Loop, idx: seq<nat>, script: nat -> Callback, fired: seq<nat>, p: nat)
    requires p < |idx|
  {
    exists j :: j in fired && j < p && idx[j] < |s.entries| && idx[p] < |s.entries| &&
      (Kills(s.entries[idx[j]].reg, script(j), s.entries[idx[p]].reg.fd) || Ends(script(j)))
  }

  /** Dispatches come in the order of the entries, each at most once. */
  lemma {:induction false} DispatchOrder(
      s: Loop, idx: seq<nat>, revents: nat -> int, script: nat -> Callback, i: nat)
    requires i <= |idx|
    ensures Increasing(Dispatch(s, idx, revents, script, i).fired, i, |idx|)
    decreases |idx| - i
  {
    if i < |idx| && s.running {
      if Due(s, idx, revents, i) {
        if !script(i).throws {
          DispatchOrder(Fire(s, s.entries[idx[i]].reg, script(i)), idx, revents, script, i + 1);
        }
      } else {
        DispatchOrder(s, idx, revents, script, i + 1);
      }
    }
  }

  /**
    What a round dispatches, said without following it: exactly the polled entries
    with a callback and nonzero revents whose descriptor no earlier dispatch of the
    round removed, up to the dispatch that stopped the loop or threw.
   */
  lemma {:induction false} DispatchExact(
      s: Loop, idx: seq<nat>, revents: nat -> int, script: nat -> Callback, i: nat, p: nat)
    requires i <= p < |idx| && forall q :: 0 <= q < |idx| ==> idx[q] < |s.entries|
    ensures var fired := Dispatch(s, idx, revents, script, i).fired;
      p in fired <==> s.running && Due(s, idx, revents, p) && !Prevented(s, idx, script, fired, p)
    decreases |idx| - i
  {
    if s.running {
      DispatchOrder(s, idx, revents, script, i);
      if Due(s, idx, revents, i) {
        var reg := s.entries[idx[i]].reg;
        var t := Fire(s, reg, script(i));
        FireEffect(s, reg, script(i));
        if script(i).throws {
          assert i in [i] && Ends(script(i));
        } else if p > i {
          DispatchOrder(t, idx, revents, script, i + 1);
          DispatchExact(t, idx, revents, script, i + 1, p);
          PreventedCons(s, t, idx, script, Dispatch(t, idx, revents, script, i + 1).fired, i, p);
        }
      } else {
        DispatchOrder(s, idx, revents, script, i + 1);
        if p > i {
          DispatchExact(s, idx, revents, script, i + 1, p);
        }
      }
    }
  }

  lemma PreventedCons(s: Loop, t: Loop, idx: seq<nat>, script: nat -> Callback, rest: seq<nat>, i: nat, p: nat)
    requires i < p < |idx| && forall q :: 0 <= q < |idx| ==> idx[q] < |s.entries|
    requires |s.entries| <= |t.entries| && forall k :: 0 <= k < |s.entries| ==> t.entries[k].reg == s.entries[k].reg
    requires forall j :: j in rest ==> j < |idx|
    ensures Prevented(s, idx, script, [i] + rest, p) <==>
      Kills(s.entries[idx[i]].reg, script(i), s.entries[idx[p]].reg.fd) || Ends(script(i)) ||
      Prevented(t, idx, script, rest, p)
  {
    var all := [i] + rest;
    if Prevented(t, idx, script, rest, p) {
      var j :| j in rest && j < p && idx[j] < |t.entries| && idx[p] < |t.entries| &&
        (Kills(t.entries[idx[j]].reg, script(j), t.entries[idx[p]].reg.fd) || Ends(script(j)));
      assert j in all;
    }
    if Kills(s.entries[idx[i]].reg, script(i), s.entries[idx[p]].reg.fd) || Ends(script(i)) {
      assert i in all;
    }
  }

  /**
    One round of Run: in the order of registration, every entry polled that is due
    and not prevented is dispatched, and nothing else.
   */
  lemma RoundExact(s: Loop, revents: nat -> int, script: nat -> Callback)
    requires s.running
    ensures var idx := Snapshot(s.entries);
      var fired := Round(s, revents, script).fired;
      && Increasing(fired, 0, |idx|)
      && (forall p :: 0 <= p < |idx| ==>
            (p in fired <==> revents(p) != 0 && s.entries[idx[p]].hasCb && !Prevented(s, idx, script, fired, p)))
  {
    var idx := Snapshot(s.entries);
    var s1 := s.(trace := s.trace + [RoundStart]);
    DispatchOrder(s1, idx, revents, script, 0);
    forall p | 0 <= p < |idx|
      ensures p in Round(s, revents, script).fired <==>
        revents(p) != 0 && s.entries[idx[p]].hasCb && !Prevented(s, idx, script, Round(s, revents, script).fired, p)
    {
      DispatchExact(s1, idx, revents, script, 0, p);
    }
  }

  // ---------------------------------------------------------------------
  // Whole runs
  // ---------------------------------------------------------------------

  /** What can happen to the loop: calls from outside callbacks, Run starting, poll returning. */
  datatype Step =
    | Outside(action: Action)
    | Begin
    | Interrupted
    | Polled(revents: nat -> int, script: nat -> Callback)

  function Next(s: Loop, step: Step): Loop {
    match step
    case Outside(action) => Act(s, action)
    case Begin => s.(running := true)
    case Interrupted => s
    case Polled(revents, script) => if s.running then Round(s, revents, script).loop else s
  }

  function Run(s: Loop, steps: seq<Step>): Loop
    decreases |steps|
  {
    if steps == [] then s else Run(Next(s, steps[0]), steps[1..])
  }

  const EMPTY := Loop([], [], false, 0, [])

  lemma {:induction false} RunInv(s: Loop, steps: seq<Step>)
    requires Inv(s)
    ensures Inv(Run(s, steps))
    decreases |steps|
  {
    if steps != [] {
      match steps[0] {
        case Outside(action) => ActInv(s, action);
        case Polled(revents, script) => if s.running { RoundInv(s, revents, script); }
        case _ =>
      }
      RunInv(Next(s, steps[0]), steps[1..]);
    }
  }

  // ---------------------------------------------------------------------
  // What that means for a trace
  // ---------------------------------------------------------------------

  lemma {:induction false} WithoutMember(rs: seq<Reg>, fd: int, r: Reg)
    ensures r in Without(rs, fd) <==> r in rs && r.fd != fd
  {
    if rs != [] {
      var n := |rs| - 1;
      WithoutMember(rs[..n], fd, r);
      assert r in rs <==> r in rs[..n] || r == rs[n];
    }
  }

  /** Registered at position a, and the descriptor not removed up to position n. */
  ghost predicate Standing(trace: seq<Event>, r: Reg, a: nat, n: nat) {
    a < n <= |trace| && trace[a] == Added(r) && forall b :: a < b < n ==> trace[b] != Removed(r.fd)
  }

  /** A registration is there exactly when it was made and its descriptor not removed since. */
  lemma {:induction false} RegisteredIff(trace: seq<Event>, r: Reg, n: nat)
    requires n <= |trace|
    ensures r in Registered(trace[..n]) <==> exists a :: Standing(trace, r, a, n)
    decreases n
  {
    if n != 0 {
      var m := n - 1;
      RegisteredIff(trace, r, m);
      StandingNext(trace, r, m, n);
      assert trace[..n][..m] == trace[..m];
      if trace[m].Removed? {
        WithoutMember(Registered(trace[..m]), trace[m].fd, r);
      }
    }
  }

  lemma StandingNext(trace: seq<Event>, r: Reg, m: nat, n: nat)
    requires m < |trace| && n == m + 1
    ensures (exists a :: Standing(trace, r, a, n)) <==>
      trace[m] == Added(r) || (trace[m] != Removed(r.fd) && exists a :: Standing(trace, r, a, m))
  {
    if trace[m] == Added(r) {
      assert Standing(trace, r, m, n);
    } else if trace[m] != Removed(r.fd) {
      if a :| Standing(trace, r, a, m) {
        assert Standing(trace, r, a, n);
      }
      if a :| Standing(trace, r, a, n) {
        assert Standing(trace, r, a, m);
      }
    }
  }

  /**
    For every run: a removed entry never fires again, even when its descriptor
    number is reused; an entry fires in no round that began before it was added;
    a one-shot timer fires at most once and, once cancelled, never.
   */
  lemma NoStaleDispatch(steps: seq<Step>, r: Reg, a: nat, c: nat)
    requires var trace := Run(EMPTY, steps).trace;
      a < |trace| && c < |trace| && trace[a] == Added(r) && trace[c] == Fired(r)
    ensures var trace := Run(EMPTY, steps).trace;
      && a < c
      && (forall b :: a < b < c ==> trace[b] != Removed(r.fd))
      && (exists m :: a < m < c && trace[m] == RoundStart)
      && (r.oneShot ==> forall c' :: c < c' < |trace| ==> trace[c'] != Fired(r))
  {
    RunInv(EMPTY, steps);
    var trace := Run(EMPTY, steps).trace;
    FiredRecord(trace, Run(EMPTY, steps).nextId, r, a, c);
    assert FiredOk(trace, c);
    if r.oneShot {
      assert trace[c + 1] == Removed(r.fd);
      forall c' | c < c' < |trace|
        ensures trace[c'] != Fired(r)
      {
        if trace[c'] == Fired(r) {
          FiredRecord(trace, Run(EMPTY, steps).nextId, r, a, c');
          assert false;
        }
      }
    }
  }

  lemma FiredRecord(trace: seq<Event>, nextId: nat, r: Reg, a: nat, c: nat)
    requires WellTraced(trace) && FreshIds(trace, nextId)
    requires a < |trace| && c < |trace| && trace[a] == Added(r) && trace[c] == Fired(r)
    ensures a < c && forall b :: a < b < c ==> trace[b] != Removed(r.fd)
    ensures exists m :: a < m < c && trace[m] == RoundStart
  {
    assert FiredOk(trace, c);
    RegisteredIff(trace, r, c);
    var a' :| Standing(trace, r, a', c);
    assert a' == a;
    var m := RoundStartIndex(trace[..c]);
    assert trace[..c][..m] == trace[..m];
    RegisteredIff(trace, r, m);
    var a'' :| Standing(trace, r, a'', m);
    assert a'' == a;
    assert trace[m] == RoundStart;
  }

  lemma {:induction false} RoundStartIndex(trace: seq<Event>) returns (m: nat)
    requires AtRoundStart(trace).Some?
    ensures m < |trace| && trace[m] == RoundStart && AtRoundStart(trace).value == Registered(trace[..m])
  {
    var n := |trace| - 1;
    if trace[n].RoundStart? {
      m := n;
    } else {
      m := RoundStartIndex(trace[..n]);
      assert trace[..n][..m] == trace[..m];
    }
  }

  /**
    For every run: the entries that are not tombstones are exactly the
    registrations made and not removed since, so an entry added during a round
    outlives the compaction at its end unless its descriptor is removed later.
   */
  lemma SurvivesUnlessRemoved(steps: seq<Step>, r: Reg)
    ensures var s := Run(EMPTY, steps);
      (exists k :: 0 <= k < |s.entries| && !s.entries[k].dead && s.entries[k].reg == r) <==>
      (exists a :: Standing(s.trace, r, a, |s.trace|))
  {
    RunInv(EMPTY, steps);
    var s := Run(EMPTY, steps);
    LiveMember(s.entries, r);
    RegisteredIff(s.trace, r, |s.trace|);
    assert s.trace[..|s.trace|] == s.trace;
  }
}
