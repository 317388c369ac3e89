/** The state variable of a connection and its transitions. */
module ConnStates {

  datatype ConnState = Verifying | Established | Closing | Closed

  /** The states in which messages are sent and dispatched. */
  predicate Open(s: ConnState) { s.Verifying? || s.Established? }

  function AfterClose(s: ConnState): ConnState { if Open(s) then Closing else s }

  function AfterVerify(s: ConnState, succ: bool): ConnState { if succ then Established else AfterClose(s) }

  /** OnConnection: with a verify callback the connection starts out unverified. */
  function AfterConnection(hasVerify: bool): ConnState { if hasVerify then Verifying else Established }

  /** The transitions spelled out, state by state. */
  lemma TransitionTable()
    ensures Open(Verifying) && Open(Established) && !Open(Closing) && !Open(Closed)
    ensures AfterClose(Verifying) == AfterClose(Established) == AfterClose(Closing) == Closing && AfterClose(Closed) == Closed
    ensures forall s :: AfterVerify(s, true) == Established
    ensures AfterVerify(Verifying, false) == AfterVerify(Established, false) == AfterVerify(Closing, false) == Closing
    ensures AfterVerify(Closed, false) == Closed
    ensures AfterConnection(true) == Verifying && AfterConnection(false) == Established
  {}
}
