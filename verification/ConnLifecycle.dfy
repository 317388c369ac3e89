/**
  The server's connection table: connection objects, the two loop entries of each,
  and the close callback.

  A connection object lives as long as somebody holds it, also after it has left
  the table; only then are its two descriptors closed and their numbers free for
  reuse. Steps follow the code up to the point where it calls the application;
  what the application does there is further steps, so callbacks may re-enter the
  server at will. That includes the codec factory, which adoption calls after the
  test of started_ and before the insertion into the table; a Stop it calls has
  removed its connections by the time the factory returns. OnVerify(true) is never
  called on a closed connection; see VerifyGuardIff for why.
 */
module ConnLifecycle {
  import opened ConnStates
  import L = EventLoop

  datatype Side = Notify | Socket

  /** Who an entry of the loop belongs to. */
  datatype Owner = Conn(id: nat, side: Side) | Other

  /** A connection object: its descriptors, its state and (auxiliary) its registration numbers. */
  datatype Obj = Obj(notify: int, socket: int, state: ConnState, notifyReg: nat, socketReg: nat)
  {
    function Fd(side: Side): int { if side.Notify? then notify else socket }

    /** The loop entry of one side. */
    function Entry(side: Side): L.Reg {
      L.Reg(if side.Notify? then notifyReg else socketReg, Fd(side), false)
    }
  }

  /** The connection for which the codec factory is running: its descriptors are open already. */
  datatype Making = NotMaking | Making(notify: int, socket: int)
  {
    function Fds(): set<int> { if NotMaking? then {} else {notify, socket} }
  }

  datatype State = State(
    loop: L.Loop,
    owners: map<nat, Owner>,    // by registration number
    making: Making,
    others: set<int>,           // other open descriptors: listening socket, timers, ...
    objs: map<nat, Obj>,        // connection objects alive, by connection id
    conns: set<nat>,            // the connection table
    nextId: nat,
    started: bool,
    stopList: seq<nat>,         // what Stop, or nested Stops, still have to remove
    closes: map<nat, nat>)      // auxiliary: close callbacks fired, by connection id

  datatype Step =
    | AdoptBegin(notify: int, socket: int)
    | AdoptEnd(codecOk: bool, hasVerify: bool)
    | Close(id: nat)
    | Verify(id: nat, succ: bool)
    | Remove(id: nat)
    | Destroy(id: nat)
    | AddOther(fd: int)
    | RemoveOther(fd: int)
    | Compact
    | StopBegin(order: seq<nat>)
    | StopNext
    | Start

  /** A descriptor number the operating system may hand out. */
  predicate FreeFd(s: State, fd: int) {
    fd !in s.others && fd !in s.making.Fds() &&
    forall id :: id in s.objs ==> s.objs[id].notify != fd && s.objs[id].socket != fd
  }

  ghost predicate Enabled(s: State, step: Step) {
    match step
    case AdoptBegin(notify, socket) =>
      s.started && s.making.NotMaking? && notify != socket && FreeFd(s, notify) && FreeFd(s, socket)
    case AdoptEnd(_, _) => s.making.Making? && s.stopList == []
    case Close(id) => id in s.objs
    case Verify(id, succ) => id in s.objs && (succ ==> s.objs[id].state != Closed)
    case Remove(id) => id in s.objs
    case Destroy(id) => id in s.objs && id !in s.conns && id !in s.stopList
    case AddOther(fd) => FreeFd(s, fd)
    case RemoveOther(fd) => fd in s.others
    case Compact => true
    case StopBegin(order) => s.started && forall id :: id in order <==> id in s.conns
    case StopNext => s.stopList != [] && s.stopList[0] in s.objs
    case Start => !s.started
  }

  function AddEntry(s: State, fd: int, owner: Owner): State {
    s.(loop := L.Append(s.loop, fd, L.POLLIN, true, false), owners := s.owners[s.loop.nextId := owner])
  }

  /** RemoveConn: both entries, the table, then OnClose. */
  function RemoveConn(s: State, id: nat): State
    requires id in s.objs
  {
    var o := s.objs[id];
    s.(loop := L.Drop(L.Drop(s.loop, o.notify), o.socket),
       conns := s.conns - {id},
       objs := s.objs[id := o.(state := Closed)],
       closes := if o.state != Closed && id in s.closes then s.closes[id := s.closes[id] + 1] else s.closes)
  }

  /** The rest of FinishAccept once there is a codec: table, two entries, OnConnection. */
  function Insert(s: State, hasVerify: bool): State
    requires s.making.Making?
  {
    var Making(notify, socket) := s.making;
    var id := s.nextId;
    AddEntry(AddEntry(s, notify, Conn(id, Notify)), socket, Conn(id, Socket)).(
      objs := s.objs[id := Obj(notify, socket, AfterConnection(hasVerify), s.loop.nextId, s.loop.nextId + 1)],
      conns := s.conns + {id}, nextId := id + 1, closes := s.closes[id := 0])
  }

  function Apply(s: State, step: Step): State
    requires Enabled(s, step)
  {
    match step
    case AdoptBegin(notify, socket) => s.(making := Making(notify, socket))
    case AdoptEnd(codecOk, hasVerify) =>
      if codecOk then Insert(s, hasVerify).(making := NotMaking) else s.(making := NotMaking)
    case Close(id) => s.(objs := s.objs[id := s.objs[id].(state := AfterClose(s.objs[id].state))])
    case Verify(id, succ) => s.(objs := s.objs[id := s.objs[id].(state := AfterVerify(s.objs[id].state, succ))])
    case Remove(id) => RemoveConn(s, id)
    case Destroy(id) => s.(objs := s.objs - {id})
    case AddOther(fd) => AddEntry(s, fd, Other).(others := s.others + {fd})
    case RemoveOther(fd) => s.(loop := L.Drop(s.loop, fd), others := s.others - {fd})
    case Compact => s.(loop := s.loop.(entries := L.Compact(s.loop.entries)))
    case StopBegin(order) => s.(started := false, stopList := order + s.stopList)
    case StopNext => RemoveConn(s, s.stopList[0]).(stopList := s.stopList[1..])
    case Start => s.(started := true)
  }

  ghost predicate Init(s: State) {
    && s.loop == L.EMPTY && s.owners == map[] && s.making.NotMaking? && s.others == {} && s.objs == map[] && s.conns == {}
    && s.nextId == 0 && !s.started && s.stopList == [] && s.closes == map[]
  }

  // ---------------------------------------------------------------------
  // The invariant
  // ---------------------------------------------------------------------

  /** Open descriptors have different numbers. */
  ghost predicate FdsOk(objs: map<nat, Obj>, making: Making, others: set<int>) {
    && (making.Making? ==> making.notify != making.socket) && making.Fds() !! others
    && (forall i, a, j, b :: i in objs && j in objs && objs[i].Fd(a) == objs[j].Fd(b) ==> i == j && a == b)
    && (forall i, a :: i in objs ==> objs[i].Fd(a) !in others && objs[i].Fd(a) !in making.Fds())
  }

  /** Registration numbers identify the live entries. */
  ghost predicate NumbersOk(live: seq<L.Reg>, owners: map<nat, Owner>, next: nat) {
    && (forall i :: 0 <= i < |live| ==> live[i].id < next)
    && (forall i, j :: 0 <= i < j < |live| ==> live[i].id < live[j].id)
    && (forall n :: n in owners ==> n < next)
  }

  /** Every live entry is one of the two of a connection in the table, or somebody else's. */
  ghost predicate EntriesOk(live: seq<L.Reg>, owners: map<nat, Owner>, objs: map<nat, Obj>, conns: set<nat>,
                            others: set<int>) {
    forall r :: r in live ==>
      && r.id in owners
      && (owners[r.id].Other? ==> r.fd in others)
      && (owners[r.id].Conn? ==>
            var Conn(id, side) := owners[r.id]; id in conns && id in objs && r == objs[id].Entry(side))
  }

  /** Every connection in the table has both its entries. */
  ghost predicate BothPresent(live: seq<L.Reg>, owners: map<nat, Owner>, objs: map<nat, Obj>, conns: set<nat>) {
    forall id, side :: id in conns && id in objs ==>
      objs[id].Entry(side) in live && objs[id].Entry(side).id in owners &&
      owners[objs[id].Entry(side).id] == Conn(id, side)
  }

  /** The close callback has fired once for every connection that has left the table, and for no other. */
  ghost predicate ClosesOk(objs: map<nat, Obj>, conns: set<nat>, nextId: nat, closes: map<nat, nat>) {
    && (forall id: nat :: id in closes <==> id < nextId)
    && (forall id :: id in objs ==> id < nextId)
    && (forall id :: id in conns ==> id in objs && objs[id].state != Closed && id in closes && closes[id] == 0)
    && (forall id :: id in closes && id !in conns ==> closes[id] == 1)
    && (forall id :: id in objs && id !in conns ==> objs[id].state == Closed)
  }

  ghost predicate StopOk(stopList: seq<nat>, objs: map<nat, Obj>) { forall id :: id in stopList ==> id in objs }

  ghost predicate LoopOk(live: seq<L.Reg>, nextReg: nat, owners: map<nat, Owner>, objs: map<nat, Obj>, conns: set<nat>,
                         others: set<int>) {
    && NumbersOk(live, owners, nextReg)
    && EntriesOk(live, owners, objs, conns, others)
    && BothPresent(live, owners, objs, conns)
  }

  ghost predicate Inv(s: State) {
    && FdsOk(s.objs, s.making, s.others)
    && LoopOk(L.Live(s.loop.entries), s.loop.nextId, s.owners, s.objs, s.conns, s.others)
    && ClosesOk(s.objs, s.conns, s.nextId, s.closes)
    && StopOk(s.stopList, s.objs)
  }

  // ---------------------------------------------------------------------
  // Steps on the table of live entries
  // ---------------------------------------------------------------------

  /** A new entry under a number never used. */
  lemma AddEntryLive(s: State, fd: int, owner: Owner)
    requires NumbersOk(L.Live(s.loop.entries), s.owners, s.loop.nextId)
    ensures var t := AddEntry(s, fd, owner);
      && L.Live(t.loop.entries) == L.Live(s.loop.entries) + [L.Reg(s.loop.nextId, fd, false)]
      && t.loop.nextId == s.loop.nextId + 1
      && NumbersOk(L.Live(t.loop.entries), t.owners, t.loop.nextId)
  {
    L.LiveSnoc(s.loop.entries, L.Entry(L.Reg(s.loop.nextId, fd, false), L.POLLIN, false, true));
  }

  lemma {:induction false} WithoutOrdered(live: seq<L.Reg>, owners: map<nat, Owner>, next: nat, fd: int)
    requires NumbersOk(live, owners, next)
    ensures NumbersOk(L.Without(live, fd), owners, next)
    decreases |live|
  {
    if live != [] {
      var n := |live| - 1;
      WithoutOrdered(live[..n], owners, next, fd);
      forall r | r in L.Without(live[..n], fd)
        ensures r.id < live[n].id
      {
        L.WithoutMember(live[..n], fd, r);
      }
    }
  }

  /** Removing a descriptor takes out exactly the live entries with its number. */
  lemma DropLive(loop: L.Loop, owners: map<nat, Owner>, fd: int)
    requires NumbersOk(L.Live(loop.entries), owners, loop.nextId)
    ensures var t := L.Drop(loop, fd);
      && t.nextId == loop.nextId
      && NumbersOk(L.Live(t.entries), owners, t.nextId)
      && forall r :: r in L.Live(t.entries) <==> r in L.Live(loop.entries) && r.fd != fd
  {
    L.LiveBury(loop.entries, fd);
    WithoutOrdered(L.Live(loop.entries), owners, loop.nextId, fd);
    forall r
      ensures r in L.Without(L.Live(loop.entries), fd) <==> r in L.Live(loop.entries) && r.fd != fd
    {
      L.WithoutMember(L.Live(loop.entries), fd, r);
    }
  }

  lemma RemoveLive(s: State, id: nat)
    requires Inv(s) && id in s.objs
    ensures var t := RemoveConn(s, id);
      && NumbersOk(L.Live(t.loop.entries), t.owners, t.loop.nextId)
      && forall r :: r in L.Live(t.loop.entries) <==>
           r in L.Live(s.loop.entries) && r.fd != s.objs[id].notify && r.fd != s.objs[id].socket
  {
    var o := s.objs[id];
    DropLive(s.loop, s.owners, o.notify);
    DropLive(L.Drop(s.loop, o.notify), s.owners, o.socket);
  }

  /**
    RemoveConn, called on any connection object that is alive, in the table or not,
    once or repeatedly, takes out that connection's entries and nobody else's.
   */
  lemma RemoveOnlyOwn(s: State, id: nat, r: L.Reg)
    requires Inv(s) && id in s.objs && r in L.Live(s.loop.entries)
    ensures r.id in s.owners
    ensures r !in L.Live(RemoveConn(s, id).loop.entries) <==> s.owners[r.id].Conn? && s.owners[r.id].id == id
  {
    RemoveLive(s, id);
    var o := s.objs[id];
    assert o.Fd(Notify) == o.notify && o.Fd(Socket) == o.socket;
  }

  // ---------------------------------------------------------------------
  // Every step keeps the invariant
  // ---------------------------------------------------------------------

  lemma RemoveInv(s: State, id: nat)
    requires Inv(s) && id in s.objs
    ensures Inv(RemoveConn(s, id))
  {
    RemoveLive(s, id);
    var t := RemoveConn(s, id);
    var live, live' := L.Live(s.loop.entries), L.Live(t.loop.entries);
    forall i, side | i in s.objs
      ensures t.objs[i].Fd(side) == s.objs[i].Fd(side) && t.objs[i].Entry(side) == s.objs[i].Entry(side)
    {}
    assert EntriesOk(live', t.owners, t.objs, t.conns, t.others) by {
      forall r | r in live'
        ensures r.id in t.owners && (t.owners[r.id].Conn? ==> t.owners[r.id].id in t.conns)
      {
        RemoveOnlyOwn(s, id, r);
      }
    }
    assert BothPresent(live', t.owners, t.objs, t.conns) by {
      forall i, side | i in t.conns && i in t.objs
        ensures t.objs[i].Entry(side) in live'
      {
        assert s.objs[i].Entry(side) in live;
        RemoveOnlyOwn(s, id, s.objs[i].Entry(side));
      }
    }
  }

  /** The descriptors in the making become those of a connection. */
  lemma AdoptFds(objs: map<nat, Obj>, making: Making, others: set<int>, id: nat, o: Obj)
    requires FdsOk(objs, making, others) && id !in objs
    requires making == Making(o.notify, o.socket)
    ensures FdsOk(objs[id := o], NotMaking, others)
  {
    assert forall a :: o.Fd(a) in making.Fds();
  }

  lemma BeginFds(objs: map<nat, Obj>, others: set<int>, notify: int, socket: int)
    requires FdsOk(objs, NotMaking, others) && notify != socket && notify !in others && socket !in others
    requires forall i :: i in objs ==> objs[i].notify != notify && objs[i].socket != notify
    requires forall i :: i in objs ==> objs[i].notify != socket && objs[i].socket != socket
    ensures FdsOk(objs, Making(notify, socket), others)
  {
    assert forall i, a :: i in objs ==> objs[i].Fd(a) == objs[i].notify || objs[i].Fd(a) == objs[i].socket;
  }

  lemma AdoptEntries(live: seq<L.Reg>, owners: map<nat, Owner>, objs: map<nat, Obj>, conns: set<nat>, others: set<int>,
                     id: nat, o: Obj, next: nat)
    requires EntriesOk(live, owners, objs, conns, others) && BothPresent(live, owners, objs, conns)
    requires NumbersOk(live, owners, next) && id !in objs && conns <= objs.Keys
    requires o.notifyReg == next && o.socketReg == next + 1
    ensures var live' := live + [o.Entry(Notify)] + [o.Entry(Socket)];
      var owners' := owners[next := Conn(id, Notify)][next + 1 := Conn(id, Socket)];
      && EntriesOk(live', owners', objs[id := o], conns + {id}, others)
      && BothPresent(live', owners', objs[id := o], conns + {id})
  {
    var live' := live + [o.Entry(Notify)] + [o.Entry(Socket)];
    var owners' := owners[next := Conn(id, Notify)][next + 1 := Conn(id, Socket)];
    assert forall r :: r in live ==> r.id in owners && r.id < next;
    forall i, side | i in conns + {id}
      ensures objs[id := o][i].Entry(side) in live' && objs[id := o][i].Entry(side).id in owners'
      ensures owners'[objs[id := o][i].Entry(side).id] == Conn(i, side)
    {
      if i != id {
        assert objs[i].Entry(side) in live;
      } else {
        assert side == Notify || side == Socket;
      }
    }
  }

  lemma AdoptBeginInv(s: State, notify: int, socket: int)
    requires Inv(s) && Enabled(s, AdoptBegin(notify, socket))
    ensures Inv(Apply(s, AdoptBegin(notify, socket)))
  {
    BeginFds(s.objs, s.others, notify, socket);
  }

  lemma InsertLoop(s: State, hasVerify: bool)
    requires LoopOk(L.Live(s.loop.entries), s.loop.nextId, s.owners, s.objs, s.conns, s.others)
    requires s.making.Making? && s.nextId !in s.objs && s.conns <= s.objs.Keys
    ensures var t := Insert(s, hasVerify);
      LoopOk(L.Live(t.loop.entries), t.loop.nextId, t.owners, t.objs, t.conns, t.others)
  {
    var id := s.nextId;
    var t := Insert(s, hasVerify);
    var live, o := L.Live(s.loop.entries), t.objs[id];
    AddEntryLive(s, o.notify, Conn(id, Notify));
    AddEntryLive(AddEntry(s, o.notify, Conn(id, Notify)), o.socket, Conn(id, Socket));
    assert L.Live(t.loop.entries) == live + [o.Entry(Notify)] + [o.Entry(Socket)];
    AdoptEntries(live, s.owners, s.objs, s.conns, s.others, id, o, s.loop.nextId);
  }

  lemma InsertInv(s: State, hasVerify: bool)
    requires Inv(s) && s.making.Making?
    ensures Inv(Insert(s, hasVerify).(making := NotMaking))
  {
    var o := Insert(s, hasVerify).objs[s.nextId];
    InsertLoop(s, hasVerify);
    AdoptFds(s.objs, s.making, s.others, s.nextId, o);
    AdoptCloses(s.objs, s.conns, s.nextId, s.closes, o);
  }

  lemma AdoptCloses(objs: map<nat, Obj>, conns: set<nat>, nextId: nat, closes: map<nat, nat>, o: Obj)
    requires ClosesOk(objs, conns, nextId, closes) && o.state != Closed
    ensures ClosesOk(objs[nextId := o], conns + {nextId}, nextId + 1, closes[nextId := 0])
  {}

  lemma AddOtherInv(s: State, fd: int)
    requires Inv(s) && Enabled(s, AddOther(fd))
    ensures Inv(Apply(s, AddOther(fd)))
  {
    AddEntryLive(s, fd, Other);
    OtherFds(s.objs, s.making, s.others, fd);
  }

  lemma OtherFds(objs: map<nat, Obj>, making: Making, others: set<int>, fd: int)
    requires FdsOk(objs, making, others) && fd !in making.Fds()
    requires forall id :: id in objs ==> objs[id].notify != fd && objs[id].socket != fd
    ensures FdsOk(objs, making, others + {fd})
  {
    assert forall i, a :: i in objs ==> objs[i].Fd(a) == objs[i].notify || objs[i].Fd(a) == objs[i].socket;
  }

  lemma RemoveOtherInv(s: State, fd: int)
    requires Inv(s) && Enabled(s, RemoveOther(fd))
    ensures Inv(Apply(s, RemoveOther(fd)))
  {
    DropLive(s.loop, s.owners, fd);
  }

  lemma CompactInv(s: State)
    requires Inv(s)
    ensures Inv(Apply(s, Compact))
  {
    L.LiveCompact(s.loop.entries);
  }

  /** Objects may change state; their descriptors and entries stay. */
  ghost predicate SameShape(objs: map<nat, Obj>, objs': map<nat, Obj>) {
    && objs'.Keys == objs.Keys
    && forall i, side :: i in objs ==> objs'[i].Fd(side) == objs[i].Fd(side) && objs'[i].Entry(side) == objs[i].Entry(side)
  }

  lemma ShapeKept(live: seq<L.Reg>, owners: map<nat, Owner>, objs: map<nat, Obj>, objs': map<nat, Obj>,
                  conns: set<nat>, making: Making, others: set<int>)
    requires FdsOk(objs, making, others) && EntriesOk(live, owners, objs, conns, others)
    requires BothPresent(live, owners, objs, conns) && SameShape(objs, objs')
    ensures FdsOk(objs', making, others) && EntriesOk(live, owners, objs', conns, others)
    ensures BothPresent(live, owners, objs', conns)
  {}

  /** Close and OnVerify change nothing but the state of an object. */
  lemma SetStateInv(s: State, id: nat, state: ConnState)
    requires Inv(s) && id in s.objs && (state == Closed <==> s.objs[id].state == Closed)
    ensures Inv(s.(objs := s.objs[id := s.objs[id].(state := state)]))
  {
    var objs := s.objs[id := s.objs[id].(state := state)];
    assert SameShape(s.objs, objs);
    ShapeKept(L.Live(s.loop.entries), s.owners, s.objs, objs, s.conns, s.making, s.others);
  }

  lemma DestroyInv(s: State, id: nat)
    requires Inv(s) && Enabled(s, Destroy(id))
    ensures Inv(Apply(s, Destroy(id)))
  {}

  lemma StopNextInv(s: State)
    requires Inv(s) && Enabled(s, StopNext)
    ensures Inv(Apply(s, StopNext))
  {
    RemoveInv(s, s.stopList[0]);
    TailOk(s.stopList, RemoveConn(s, s.stopList[0]).objs);
  }

  lemma TailOk(stopList: seq<nat>, objs: map<nat, Obj>)
    requires stopList != [] && StopOk(stopList, objs)
    ensures StopOk(stopList[1..], objs)
  {}

  lemma StepInv(s: State, step: Step)
    requires Inv(s) && Enabled(s, step)
    ensures Inv(Apply(s, step))
  {
    match step
    case AdoptBegin(notify, socket) => AdoptBeginInv(s, notify, socket);
    case AdoptEnd(codecOk, hasVerify) => if codecOk { InsertInv(s, hasVerify); }
    case Close(id) => SetStateInv(s, id, AfterClose(s.objs[id].state));
    case Verify(id, succ) => SetStateInv(s, id, AfterVerify(s.objs[id].state, succ));
    case Remove(id) => RemoveInv(s, id);
    case Destroy(id) => DestroyInv(s, id);
    case AddOther(fd) => AddOtherInv(s, fd);
    case RemoveOther(fd) => RemoveOtherInv(s, fd);
    case Compact => CompactInv(s);
    case StopBegin(_) =>
    case StopNext => StopNextInv(s);
    case Start =>
  }

  // ---------------------------------------------------------------------
  // Whole runs
  // ---------------------------------------------------------------------

  ghost predicate Reaches(s: State, steps: seq<Step>, t: State)
    decreases |steps|
  {
    if steps == [] then s == t
    else Enabled(s, steps[0]) && Reaches(Apply(s, steps[0]), steps[1..], t)
  }

  lemma {:induction false} RunInv(s: State, steps: seq<Step>, t: State)
    requires Inv(s) && Reaches(s, steps, t)
    ensures Inv(t)
    decreases |steps|
  {
    if steps != [] {
      StepInv(s, steps[0]);
      RunInv(Apply(s, steps[0]), steps[1..], t);
    }
  }

  /**
    In every run: the close callback of a connection fires at most once, and exactly
    once when it has left the table. If no adoption was late, Stop leaves no
    connection behind for which it has not fired.
   */
  lemma ClosedExactlyOnce(s: State, steps: seq<Step>, t: State, id: nat)
    requires Init(s) && Reaches(s, steps, t) && id < t.nextId
    ensures id in t.closes && t.closes[id] == if id in t.conns then 0 else 1
    ensures NoneLate(s, steps) && !t.started && t.stopList == [] ==> t.conns == {} && t.closes[id] == 1
  {
    RunInv(s, steps, t);
    if NoneLate(s, steps) {
      PromptRun(s, steps, t);
    }
  }

  // ---------------------------------------------------------------------
  // A Stop inside the codec factory
  // ---------------------------------------------------------------------

  /** The codec factory hands over a codec although the server has been stopped meanwhile. */
  predicate Late(s: State, step: Step) { step.AdoptEnd? && step.codecOk && !s.started }

  ghost predicate NoneLate(s: State, steps: seq<Step>)
    decreases |steps|
  {
    steps == [] ||
    (Enabled(s, steps[0]) && !Late(s, steps[0]) && NoneLate(Apply(s, steps[0]), steps[1..]))
  }

  /** On a stopped server every connection is one that a Stop under way will remove. */
  ghost predicate Listed(s: State) { !s.started ==> forall id :: id in s.conns ==> id in s.stopList }

  /** Once Stop has returned there are no connections. */
  predicate Done(s: State) { !s.started && s.stopList == [] ==> s.conns == {} }

  ghost predicate AllDone(s: State, steps: seq<Step>)
    decreases |steps|
  {
    Done(s) && (steps == [] || (Enabled(s, steps[0]) && AllDone(Apply(s, steps[0]), steps[1..])))
  }

  lemma ListedStep(s: State, step: Step)
    requires Listed(s) && Enabled(s, step) && !Late(s, step)
    ensures Listed(Apply(s, step))
  {
    if step.StopNext? {
      assert s.stopList == [s.stopList[0]] + s.stopList[1..];
    }
  }

  lemma LateStep(s: State, step: Step)
    requires Enabled(s, step) && Late(s, step)
    ensures !Done(Apply(s, step))
  {
    assert s.nextId in Apply(s, step).conns;
  }

  lemma {:induction false} PromptRun(s: State, steps: seq<Step>, t: State)
    requires Listed(s) && Reaches(s, steps, t) && NoneLate(s, steps)
    ensures Listed(t)
    decreases |steps|
  {
    if steps != [] {
      ListedStep(s, steps[0]);
      PromptRun(Apply(s, steps[0]), steps[1..], t);
    }
  }

  lemma {:induction false} DoneIff(s: State, steps: seq<Step>, t: State)
    requires Listed(s) && Reaches(s, steps, t)
    ensures AllDone(s, steps) <==> NoneLate(s, steps)
    decreases |steps|
  {
    if steps != [] {
      if Late(s, steps[0]) {
        LateStep(s, steps[0]);
      } else {
        ListedStep(s, steps[0]);
        DoneIff(Apply(s, steps[0]), steps[1..], t);
      }
    }
  }

  /**
    Throughout a run every Stop that has returned has left no connection behind,
    exactly when no codec factory hands over a codec on a stopped server.
   */
  lemma StopClosesAllIff(s: State, steps: seq<Step>, t: State)
    requires Init(s) && Reaches(s, steps, t)
    ensures AllDone(s, steps) <==> NoneLate(s, steps)
  {
    DoneIff(s, steps, t);
  }

  lemma ReachesCons(s: State, step: Step, s1: State, rest: seq<Step>, t: State)
    requires Enabled(s, step) && Apply(s, step) == s1 && Reaches(s1, rest, t)
    ensures Reaches(s, [step] + rest, t)
  {
    assert ([step] + rest)[1..] == rest;
  }

  lemma ReachesFour(s: State, s1: State, s2: State, s3: State, t: State, a: Step, b: Step, c: Step, d: Step)
    requires Enabled(s, a) && Apply(s, a) == s1 && Enabled(s1, b) && Apply(s1, b) == s2
    requires Enabled(s2, c) && Apply(s2, c) == s3 && Enabled(s3, d) && Apply(s3, d) == t
    ensures Reaches(s, [a, b, c, d], t)
  {
    ReachesCons(s3, d, t, [], t);
    ReachesCons(s2, c, s3, [d], t) by { assert [d] + [] == [d]; }
    ReachesCons(s1, b, s2, [c, d], t) by { assert [c] + [d] == [c, d]; }
    ReachesCons(s, a, s1, [b, c, d], t) by { assert [b] + [c, d] == [b, c, d]; }
    assert [a] + [b, c, d] == [a, b, c, d];
  }

  /** The first connection of a server, inserted whether it is stopped or not. */
  lemma FirstInsert(s: State)
    requires s.making.Making? && s.loop == L.EMPTY && s.conns == {} && s.closes == map[] && s.nextId == 0
    requires s.owners == map[]
    ensures var t := Insert(s, false);
      t.conns == {0} && t.closes == map[0 := 0] && t.started == s.started && |L.Live(t.loop.entries)| == 2
  {
    var Making(notify, socket) := s.making;
    AddEntryLive(s, notify, Conn(0, Notify));
    AddEntryLive(AddEntry(s, notify, Conn(0, Notify)), socket, Conn(0, Socket));
  }

  /**
    The run that goes wrong: the factory stops the server and returns a codec. The
    connection is in the table of a stopped server with both its loop entries, its
    close callback has not fired, and Stop does nothing any more.
   */
  lemma StopInFactory(s: State, notify: int, socket: int) returns (steps: seq<Step>, t: State)
    requires Init(s) && notify != socket
    ensures steps == [Start, AdoptBegin(notify, socket), StopBegin([]), AdoptEnd(true, false)]
    ensures Reaches(s, steps, t) && !t.started && t.stopList == []
    ensures t.conns == {0} && t.closes == map[0 := 0] && |L.Live(t.loop.entries)| == 2
    ensures forall order :: !Enabled(t, StopBegin(order))
  {
    var begin := AdoptBegin(notify, socket);
    var s1 := Apply(s, Start);
    var s2 := Apply(s1, begin);
    var s3 := Apply(s2, StopBegin([]));
    t := Apply(s3, AdoptEnd(true, false));
    FirstInsert(s3);
    steps := [Start, begin, StopBegin([]), AdoptEnd(true, false)];
    ReachesFour(s, s1, s2, s3, t, Start, begin, StopBegin([]), AdoptEnd(true, false));
  }

  // ---------------------------------------------------------------------
  // The loop entries of a connection
  // ---------------------------------------------------------------------

 /**
    In every run: a connection in the table has exactly two live loop entries, one
    for each of its descriptors, and a live entry of a connection means that the
    connection is in the table.
   */
  lemma TwoEntriesEach(s: State, steps: seq<Step>, t: State, r: L.Reg)
    requires Init(s) && Reaches(s, steps, t)
    ensures t.conns <= t.objs.Keys
    ensures forall id, side :: id in t.conns ==> t.objs[id].Entry(side) in L.Live(t.loop.entries)
    ensures r in L.Live(t.loop.entries) ==> r.id in t.owners
    ensures r in L.Live(t.loop.entries) && t.owners[r.id].Conn? ==>
      var Conn(id, side) := t.owners[r.id]; id in t.conns && id in t.objs && r == t.objs[id].Entry(side)
    ensures forall i, j :: 0 <= i < j < |L.Live(t.loop.entries)| ==>
      L.Live(t.loop.entries)[i].id != L.Live(t.loop.entries)[j].id
  {
    RunInv(s, steps, t);
  }

  // ---------------------------------------------------------------------
  // Verification
  // ---------------------------------------------------------------------

  /** While the connection object lives, its state is not established; not open either, if `closed`. */
  ghost predicate Withheld(s: State, id: nat, closed: bool) {
    id in s.objs ==> s.objs[id].state != Established && (closed ==> s.objs[id].state != Verifying)
  }

  lemma WithheldStep(s: State, step: Step, id: nat, closed: bool)
    requires Enabled(s, step) && id < s.nextId && Withheld(s, id, closed) && step != Verify(id, true)
    ensures Withheld(Apply(s, step), id, closed) && id < Apply(s, step).nextId
  {}

  lemma {:induction false} WithheldRun(s: State, steps: seq<Step>, t: State, id: nat, closed: bool)
    requires Reaches(s, steps, t) && id < s.nextId && Withheld(s, id, closed) && Verify(id, true) !in steps
    ensures Withheld(t, id, closed)
    decreases |steps|
  {
    if steps != [] {
      WithheldStep(s, steps[0], id, closed);
      WithheldRun(Apply(s, steps[0]), steps[1..], t, id, closed);
    }
  }

  /**
    What adoption makes: a connection in the table under a new number, with the two
    descriptors it was begun with, its callback not fired; established at once without
    a verify callback, unverified with one, and then not established in any run until
    OnVerify(true) is called on it.
   */
  lemma AdoptedUnverified(s: State, run: seq<Step>, t: State, hasVerify: bool, steps: seq<Step>, u: State)
    requires Init(s) && Reaches(s, run, t) && Enabled(t, AdoptEnd(true, hasVerify))
    requires Reaches(Apply(t, AdoptEnd(true, hasVerify)), steps, u)
    ensures var m, id := Apply(t, AdoptEnd(true, hasVerify)), t.nextId;
      && id !in t.objs && m.conns == t.conns + {id} && id in m.objs && m.closes == t.closes[id := 0]
      && m.objs[id].notify == t.making.notify && m.objs[id].socket == t.making.socket
      && m.objs[id].state == (if hasVerify then Verifying else Established)
    ensures hasVerify && t.nextId in u.objs && u.objs[t.nextId].state == Established ==> Verify(t.nextId, true) in steps
  {
    assert t.nextId !in t.objs by { RunInv(s, run, t); }
    if hasVerify && Verify(t.nextId, true) !in steps {
      WithheldRun(Apply(t, AdoptEnd(true, true)), steps, u, t.nextId, false);
    }
  }

  /** After OnVerify(false) a connection is not open, in any run, until OnVerify(true) is called on it. */
  lemma FailedVerificationShuts(s: State, run: seq<Step>, t: State, id: nat, steps: seq<Step>, u: State)
    requires Init(s) && Reaches(s, run, t) && Enabled(t, Verify(id, false))
    requires Reaches(Apply(t, Verify(id, false)), steps, u) && Verify(id, true) !in steps && id in u.objs
    ensures u.objs[id].state == Closing || u.objs[id].state == Closed
  {
    assert id < t.nextId by { RunInv(s, run, t); }
    WithheldRun(Apply(t, Verify(id, false)), steps, u, id, true);
  }

  // ---------------------------------------------------------------------
  // OnVerify(true) needs its guard
  // ---------------------------------------------------------------------

  /** What may be called on one connection object. */
  datatype Call = CallClose | CallVerify(succ: bool) | CallOnClose

  function AfterCall(s: ConnState, c: Call): ConnState {
    match c
    case CallClose => AfterClose(s)
    case CallVerify(succ) => AfterVerify(s, succ)
    case CallOnClose => Closed
  }

  /** Close callbacks fired by a sequence of calls. */
  function Fires(s: ConnState, calls: seq<Call>): nat
    decreases |calls|
  {
    if calls == [] then 0
    else (if calls[0].CallOnClose? && s != Closed then 1 else 0) + Fires(AfterCall(s, calls[0]), calls[1..])
  }

  /** OnVerify(true) is never called on a closed connection. */
  predicate Guarded(s: ConnState, calls: seq<Call>)
    decreases |calls|
  {
    calls == [] || (!(calls[0] == CallVerify(true) && s == Closed) && Guarded(AfterCall(s, calls[0]), calls[1..]))
  }

  /** With the guard the callback fires at most once, and never again after it has fired. */
  lemma {:induction false} GuardedFiresOnce(s: ConnState, calls: seq<Call>)
    requires Guarded(s, calls)
    ensures Fires(s, calls) <= if s == Closed then 0 else 1
    decreases |calls|
  {
    if calls != [] {
      GuardedFiresOnce(AfterCall(s, calls[0]), calls[1..]);
    }
  }

  /** After OnVerify(true) in state s, these calls bring the close callbacks to at most one in all. */
  predicate OnceAfterVerify(s: ConnState, calls: seq<Call>) {
    Guarded(AfterVerify(s, true), calls) ==>
      (if s == Closed then 1 else 0) + Fires(AfterVerify(s, true), calls) <= 1
  }

  /**
    OnVerify sets the state to established whatever it was. Called with true in
    state s, it leaves "no second close callback" intact for every guarded
    continuation exactly when s is not closed: a closed connection has fired once.
   */
  lemma VerifyGuardIff(s: ConnState)
    ensures (forall calls :: OnceAfterVerify(s, calls)) <==> s != Closed
  {
    if s == Closed {
      assert [CallOnClose][1..] == [];
      assert !OnceAfterVerify(s, [CallOnClose]);
    } else {
      forall calls
        ensures OnceAfterVerify(s, calls)
      {
        if Guarded(AfterVerify(s, true), calls) {
          GuardedFiresOnce(AfterVerify(s, true), calls);
        }
      }
    }
  }
}
