/** The loop object itself, its methods proved against the functions of `EventLoop`. */
module EventLoopClass {
  import opened EventLoop

  /** What poll comes back with. */
  datatype PollResult = Failed | Ready(revents: nat -> int, script: nat -> Callback)

  class Looper {
    var entries: seq<Entry>
    var timers: seq<int>
    var running: bool
    var nextId: nat
    ghost var trace: seq<Event>

    ghost function State(): Loop
      reads this
    {
      Loop(entries, timers, running, nextId, trace)
    }

    constructor ()
      ensures State() == EMPTY
    {
      entries, timers, running, nextId := [], [], false, 0;
      trace := [];
    }

    method Add(fd: int, events: int, hasCb: bool, oneShot: bool)
      modifies this
      ensures State() == Append(old(State()), fd, events, hasCb, oneShot)
    {
      var reg := Reg(nextId, fd, oneShot);
      entries := entries + [Entry(reg, events, false, hasCb)];
      nextId := nextId + 1;
      trace := trace + [Added(reg)];
    }

    method RemoveFd(fd: int)
      modifies this
      ensures State() == Drop(old(State()), fd)
    {
      var k := 0;
      while k < |entries|
        invariant k <= |entries| == |old(entries)|
        invariant timers == old(timers) && running == old(running) && nextId == old(nextId) && trace == old(trace)
        invariant forall j :: 0 <= j < |entries| ==>
          entries[j] == if j < k then Bury(old(entries)[j], fd) else old(entries)[j]
      {
        if entries[k].reg.fd == fd {
          entries := entries[k := entries[k].(dead := true)];
        }
        k := k + 1;
      }
      trace := trace + [Removed(fd)];
      assert entries == BuryAll(old(entries), fd);
    }

    method RemoveTimer(tfd: int)
      modifies this
      ensures State() == DropTimer(old(State()), tfd)
    {
      RemoveFd(tfd);
      timers := EraseOne(timers, tfd);
    }

    /** find_if followed by erase. */
    static method EraseOne(xs: seq<int>, x: int) returns (r: seq<int>)
      ensures r == EraseFirst(xs, x)
    {
      var k := 0;
      assert xs[0..] == xs;
      while k < |xs| && xs[k] != x
        invariant k <= |xs|
        invariant EraseFirst(xs, x) == xs[..k] + EraseFirst(xs[k..], x)
      {
        assert xs[k..][1..] == xs[k + 1..];
        assert xs[..k] + ([xs[k]] + EraseFirst(xs[k + 1..], x)) == xs[..k + 1] + EraseFirst(xs[k + 1..], x);
        k := k + 1;
      }
      if k < |xs| {
        assert xs[k..][1..] == xs[k + 1..];
        return xs[..k] + xs[k + 1..];
      }
      return xs;
    }

    method Perform(a: Action)
      modifies this
      ensures State() == Act(old(State()), a)
    {
      trace := trace + [Did(a)];
      match a {
        case AddFd(fd, events, hasCb) => Add(fd, events, hasCb, false);
        case AddTimer(tfd, hasCb) =>
          timers := timers + [tfd];
          Add(tfd, POLLIN, hasCb, false);
        case AddOneShotTimer(tfd) =>
          timers := timers + [tfd];
          Add(tfd, POLLIN, true, true);
        case RemoveFd(fd) => RemoveFd(fd);
        case RemoveTimer(tfd) => RemoveTimer(tfd);
        case Stop => running := false;
      }
    }

    /** The callback of an entry; a one-shot timer's wrapper removes the timer first. */
    method Invoke(reg: Reg, cb: Callback)
      modifies this
      ensures State() == Fire(old(State()), reg, cb)
    {
      trace := trace + [Fired(reg)];
      if reg.oneShot {
        RemoveTimer(reg.fd);
      }
      ghost var start := State();
      var k := 0;
      assert cb.actions[0..] == cb.actions;
      while k < |cb.actions|
        invariant k <= |cb.actions|
        invariant ActAll(State(), cb.actions[k..]) == ActAll(start, cb.actions)
      {
        assert cb.actions[k..][1..] == cb.actions[k + 1..];
        Perform(cb.actions[k]);
        k := k + 1;
      }
    }

    method CompactDead()
      modifies this`entries
      ensures entries == Compact(old(entries))
    {
      var kept := [];
      var k := 0;
      while k < |entries|
        invariant k <= |entries| && entries == old(entries)
        invariant kept == Compact(entries[..k])
      {
        assert entries[..k + 1][..k] == entries[..k];
        if !entries[k].dead {
          kept := kept + [entries[k]];
        }
        k := k + 1;
      }
      assert entries[..k] == entries;
      entries := kept;
    }

    method TakeSnapshot() returns (idx: seq<nat>)
      ensures idx == Snapshot(entries)
    {
      idx := [];
      var k := 0;
      while k < |entries|
        invariant k <= |entries|
        invariant idx == Snapshot(entries[..k])
      {
        assert entries[..k + 1][..k] == entries[..k];
        if !entries[k].dead {
          idx := idx + [k];
        }
        k := k + 1;
      }
      assert entries[..k] == entries;
    }

    /** One iteration of Run: snapshot, dispatch, compaction, also when a callback throws. */
    method RunOnce(revents: nat -> int, script: nat -> Callback) returns (threw: bool)
      modifies this
      ensures State() == Round(old(State()), revents, script).loop
      ensures threw == Round(old(State()), revents, script).threw
    {
      var idx := TakeSnapshot();
      trace := trace + [RoundStart];
      threw := DispatchAll(idx, revents, script);
      CompactDead();
    }

    method DispatchAll(idx: seq<nat>, revents: nat -> int, script: nat -> Callback) returns (threw: bool)
      requires forall p :: 0 <= p < |idx| ==> idx[p] < |entries|
      modifies this
      ensures State() == Dispatch(old(State()), idx, revents, script, 0).loop
      ensures threw == Dispatch(old(State()), idx, revents, script, 0).threw
    {
      ghost var whole := Dispatch(State(), idx, revents, script, 0);
      var i := 0;
      threw := false;
      while i < |idx| && running
        invariant i <= |idx| && !threw && |old(entries)| <= |entries|
        invariant var d := Dispatch(State(), idx, revents, script, i);
          whole.loop == d.loop && whole.threw == d.threw
      {
        var e := entries[idx[i]];
        if !e.dead && revents(i) != 0 && e.hasCb {
          FireEffect(State(), e.reg, script(i));
          Invoke(e.reg, script(i));
          if script(i).throws {
            threw := true;
            return;
          }
        }
        i := i + 1;
      }
    }

    /**
      Run, for any finite number of poll results: the steps of the specification's
      run, until the results are used up, the loop is stopped or a callback throws.
     */
    method Run(polls: seq<PollResult>) returns (used: nat, threw: bool)
      modifies this
      ensures used <= |polls| && State() == EventLoop.Run(old(State()), Steps(polls[..used]))
      ensures used == |polls| || threw || !running
      ensures threw ==> used > 0 && polls[used - 1].Ready?
      ensures threw ==>
        var Ready(revents, script) := polls[used - 1];
        Round(EventLoop.Run(old(State()), Steps(polls[..used - 1])), revents, script).threw
    {
      running := true;
      used, threw := 0, false;
      assert Steps(polls[..0]) == [Begin];
      while used < |polls| && running
        invariant used <= |polls| && !threw
        invariant State() == EventLoop.Run(old(State()), Steps(polls[..used]))
      {
        RunSnoc(old(State()), polls, used);
        match polls[used] {
          case Failed =>
          case Ready(revents, script) =>
            threw := RunOnce(revents, script);
        }
        used := used + 1;
        if threw {
          return;
        }
      }
    }
  }

  function StepOf(p: PollResult): Step {
    match p
    case Failed => Interrupted
    case Ready(revents, script) => Polled(revents, script)
  }

  /** Run() followed by these poll results. */
  function Steps(polls: seq<PollResult>): seq<Step> {
    if polls == [] then [Begin] else Steps(polls[..|polls| - 1]) + [StepOf(polls[|polls| - 1])]
  }

  lemma {:induction false} RunConcat(s: Loop, a: seq<Step>, step: Step)
    ensures EventLoop.Run(s, a + [step]) == Next(EventLoop.Run(s, a), step)
    decreases |a|
  {
    if a == [] {
      assert [] + [step] == [step] && [step][1..] == [];
    } else {
      assert (a + [step])[1..] == a[1..] + [step];
      RunConcat(Next(s, a[0]), a[1..], step);
    }
  }

  lemma RunSnoc(s: Loop, polls: seq<PollResult>, n: nat)
    requires n < |polls|
    ensures EventLoop.Run(s, Steps(polls[..n + 1])) == Next(EventLoop.Run(s, Steps(polls[..n])), StepOf(polls[n]))
  {
    assert polls[..n + 1][..n] == polls[..n];
    RunConcat(s, Steps(polls[..n]), StepOf(polls[n]));
  }
}
