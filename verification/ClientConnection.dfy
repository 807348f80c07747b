/**
 * The worker thread that controls the backup daemon (src/ClientConnection.cc). It, the user
 * interface and the callback for a terminated process change one state under a lock; between
 * two locked sections of the worker the others may run any number of theirs.
 */
module ClientConnection {
  import opened Common

  datatype WorkerState =
    | Connecting | Connected | Start | Starting | StartWait | Stop | Stopping
    | Restart | Restarting | Sync | Syncing | Reload | Reloading | Shutdown

  datatype Error =
    | NoError | Unknown | InvalidState | Interrupted | ReadTimeout | Disconnected | StartFailed | OtherError

  /** The lines "terminate", "force-sync" and "reload" that are written to the daemon. */
  datatype Command = Terminate | ForceSync | ReloadConfig

  datatype Request = StartClient | StopClient | RestartClient | SyncClient | ReloadClient

  /** Where the worker is between its locked sections. */
  datatype Place =
    | LoopHead
    | Dispatched(to: WorkerState)
    | InConnect | InRead | InLaunch
    | Sending(r: Request)
    | Sent(r: Request)
    | LoopEnd
    | Ended

  datatype Event =
    | Dispatch                    // read the state at the head of the loop
    | EnterHandler                // the first locked section of the handler dispatched to
    | ConnectReturns(e: Error) | ReadReturns(e: Error) | LaunchReturns(e: Error)
    | CommandWritten | CommandThrows
    | FinishCommand               // the second locked section of a command handler
    | EndOfLoop(destroy: bool)
    | Ask(r: Request)             // the user interface
    | ProcessTerminates(status: int)

  /** What has happened to the requests of one kind. */
  datatype Tally = Tally(accepted: nat, written: nat, thrown: nat, dropped: nat)

  datatype Tallies = Tallies(start: Tally, stop: Tally, restart: Tally, sync: Tally, reload: Tally) {
    function Of(r: Request): Tally {
      match r
      case StartClient => start
      case StopClient => stop
      case RestartClient => restart
      case SyncClient => sync
      case ReloadClient => reload
    }

    function With(r: Request, t: Tally): Tallies {
      match r
      case StartClient => this.(start := t)
      case StopClient => this.(stop := t)
      case RestartClient => this.(restart := t)
      case SyncClient => this.(sync := t)
      case ReloadClient => this.(reload := t)
    }
  }

  /** `cur` and `err` are the shared fields; the rest records where the worker is and what has happened. */
  datatype State = State(cur: WorkerState, err: Error, at: Place, tally: Tallies,
                         launches: nat, startsAfterRestart: nat, wire: seq<Command>)

  const NONE := Tally(0, 0, 0, 0)

  const Initial := State(Connecting, NoError, LoopHead, Tallies(NONE, NONE, NONE, NONE, NONE), 0, 0, [])

  /** The state in which a request can be made, that which it leads to, and that of a command under way. */
  function AskedIn(r: Request): WorkerState {
    if r == StartClient then Connecting else Connected
  }

  function Pending(r: Request): WorkerState {
    match r
    case StartClient => Start
    case StopClient => Stop
    case RestartClient => Restart
    case SyncClient => Sync
    case ReloadClient => Reload
  }

  function UnderWay(r: Request): WorkerState {
    match r
    case StartClient => Starting
    case StopClient => Stopping
    case RestartClient => Restarting
    case SyncClient => Syncing
    case ReloadClient => Reloading
  }

  function CommandOf(r: Request): Command
    requires r != StartClient
  {
    match r
    case StopClient => Terminate
    case RestartClient => Terminate
    case SyncClient => ForceSync
    case ReloadClient => ReloadConfig
  }

  /** The request that a pending state stands for. */
  function RequestOf(w: WorkerState): Option<Request> {
    match w
    case Start => Some(StartClient)
    case Stop => Some(StopClient)
    case Restart => Some(RestartClient)
    case Sync => Some(SyncClient)
    case Reload => Some(ReloadClient)
    case _ => None
  }

  // ----- the locked sections -----

  predicate WorkerEvent(e: Event) {
    !e.Ask? && !e.ProcessTerminates?
  }

  predicate Enabled(s: State, e: Event) {
    match e
    case Dispatch => s.at == LoopHead
    case EnterHandler => s.at.Dispatched?
    case ConnectReturns(_) => s.at == InConnect
    case ReadReturns(_) => s.at == InRead
    case LaunchReturns(_) => s.at == InLaunch
    case CommandWritten => s.at.Sending?
    case CommandThrows => s.at.Sending?
    case FinishCommand => s.at.Sent?
    case EndOfLoop(_) => s.at == LoopEnd
    case Ask(_) => true
    case ProcessTerminates(_) => true
  }

  function Enter(s: State, to: WorkerState): State {
    match to
    case Connecting => if s.cur == Connecting then s.(at := InConnect) else s.(at := LoopEnd)
    case Connected => if s.cur == Connected || s.cur == Restarting then s.(at := InRead) else s.(at := LoopEnd)
    case Restarting => if s.cur == Connected || s.cur == Restarting then s.(at := InRead) else s.(at := LoopEnd)
    case Start => s.(cur := Starting, at := InLaunch, launches := s.launches + 1)
    case Stop => s.(cur := Stopping, at := Sending(StopClient))
    case Restart => s.(cur := Restarting, at := Sending(RestartClient))
    case Sync => s.(cur := Syncing, at := Sending(SyncClient))
    case Reload => s.(cur := Reloading, at := Sending(ReloadClient))
    case _ => s.(at := LoopEnd)
  }

  function Apply(s: State, e: Event): State
    requires Enabled(s, e)
  {
    match e
    case Dispatch =>
      if s.cur == Shutdown then s.(at := Ended) else s.(at := Dispatched(s.cur), err := NoError)
    case EnterHandler => Enter(s, s.at.to)
    case ConnectReturns(result) =>
      if s.cur != Connecting then s.(at := LoopEnd)
      else s.(cur := if result == NoError then Connected else Connecting,
              err := if result != Interrupted then result else s.err, at := LoopEnd)
    case ReadReturns(result) =>
      if s.cur != Connected && s.cur != Restarting then s.(err := Interrupted, at := LoopEnd)
      else if result == Disconnected && s.cur == Restarting then
        s.(cur := Start, err := NoError, at := LoopEnd, startsAfterRestart := s.startsAfterRestart + 1)
      else if result == Disconnected then s.(cur := Connecting, err := Disconnected, at := LoopEnd)
      else s.(err := if result == ReadTimeout then NoError else result, at := LoopEnd)
    case LaunchReturns(result) => s.(cur := Connecting, err := result, at := LoopEnd)
    case CommandWritten =>
      var r := s.at.r;
      s.(at := Sent(r), tally := s.tally.With(r, s.tally.Of(r).(written := s.tally.Of(r).written + 1)),
         wire := s.wire + if r == StartClient then [] else [CommandOf(r)])
    case CommandThrows =>
      var r := s.at.r;
      s.(at := LoopEnd, tally := s.tally.With(r, s.tally.Of(r).(thrown := s.tally.Of(r).thrown + 1)))
    case FinishCommand =>
      if s.at.r == RestartClient then s.(err := NoError, at := LoopEnd)
      else s.(cur := Connected, err := NoError, at := LoopEnd)
    case EndOfLoop(destroy) =>
      if !destroy then s.(at := LoopHead)
      else
        var lost := RequestOf(s.cur);
        s.(cur := Shutdown, at := Ended,
           tally := if lost.None? then s.tally
                    else s.tally.With(lost.value, s.tally.Of(lost.value).(dropped := s.tally.Of(lost.value).dropped + 1)))
    case Ask(r) =>
      if s.cur != AskedIn(r) then s.(err := InvalidState)
      else s.(cur := Pending(r), tally := s.tally.With(r, s.tally.Of(r).(accepted := s.tally.Of(r).accepted + 1)))
    case ProcessTerminates(status) =>
      if s.cur != StartWait && s.cur != Connecting && s.cur != Restarting then s
      else
        s.(cur := if s.cur == Restarting then Start else Connecting,
           startsAfterRestart := s.startsAfterRestart + if s.cur == Restarting then 1 else 0,
           err := if status == 0 then s.err else StartFailed)
  }

  /** The state after a sequence of events, if they can happen in this order. */
  function After(events: seq<Event>): Option<State> {
    if events == [] then Some(Initial)
    else
      var before := After(events[..|events| - 1]);
      var e := events[|events| - 1];
      if before.Some? && Enabled(before.value, e) then Some(Apply(before.value, e)) else None
  }

  // ----- what every interleaving keeps -----

  /** The worker's place and the shared state fit together. */
  predicate Consistent(s: State) {
    && s.cur != StartWait
    && (s.at == LoopHead || s.at == LoopEnd ==> s.cur != Starting && (s.at == LoopEnd ==> s.cur != Shutdown))
    && (s.at.Dispatched? ==>
          match s.at.to
          case Connecting => s.cur == Connecting || s.cur == Start
          case Connected => s.cur == Connected || s.cur == Stop || s.cur == Restart || s.cur == Sync || s.cur == Reload
          case Restarting => s.cur == Restarting || s.cur == Start
          case to => s.cur == to && to != Starting && to != StartWait && to != Shutdown)
    && (s.at == InConnect ==> s.cur == Connecting || s.cur == Start)
    && (s.at == InRead ==> s.cur in {Connected, Stop, Restart, Sync, Reload, Restarting, Start})
    && (s.at == InLaunch ==> s.cur == Starting)
    && (s.at.Sending? ==> s.at.r != StartClient)
    && (s.at.Sent? ==> s.at.r != StartClient)
    && (s.at.Sending? || s.at.Sent? ==> s.cur == UnderWay(s.at.r) || (s.at.r == RestartClient && s.cur == Start))
    && (s.at == Ended ==> s.cur == Shutdown)
  }

  /** One if the request has been accepted and its command has not been sent yet. */
  function Open(s: State, r: Request): nat {
    if s.cur == Pending(r) || s.at == Sending(r) then 1 else 0
  }

  /** An accepted request is open, or has had one command written for it, or has failed in it, or was shut down on. */
  predicate AccountedFor(s: State, r: Request) {
    var t := s.tally.Of(r);
    if r == StartClient then
      t.accepted + s.startsAfterRestart == s.launches + t.dropped + if s.cur == Start then 1 else 0
    else
      t.accepted == t.written + t.thrown + t.dropped + Open(s, r)
  }

  predicate Accounted(s: State) {
    forall r :: AccountedFor(s, r)
  }

  predicate Invariant(s: State) {
    Consistent(s) && Accounted(s)
  }

  lemma ConsistentStep(s: State, e: Event)
    requires Consistent(s) && Enabled(s, e)
    ensures Consistent(Apply(s, e))
  {
    hide Apply, Consistent;
    if e == EnterHandler { ConsistentEnter(s); }
    else if WorkerEvent(e) { ConsistentWorkerStep(s, e); }
    else { ConsistentOtherStep(s, e); }
  }

  lemma ConsistentEnter(s: State)
    requires Consistent(s) && s.at.Dispatched?
    ensures Consistent(Apply(s, EnterHandler))
  {
  }

  lemma ConsistentWorkerStep(s: State, e: Event)
    requires Consistent(s) && Enabled(s, e) && WorkerEvent(e) && e != EnterHandler
    ensures Consistent(Apply(s, e))
  {
    hide Enter, Tallies.With, Tallies.Of;
  }

  lemma ConsistentOtherStep(s: State, e: Event)
    requires Consistent(s) && !WorkerEvent(e)
    ensures Consistent(Apply(s, e))
  {
    hide Enter, Tallies.With, Tallies.Of;
  }

  lemma AccountedStep(s: State, e: Event, r: Request)
    requires Consistent(s) && AccountedFor(s, r) && Enabled(s, e)
    ensures AccountedFor(Apply(s, e), r)
  {
    hide Apply, AccountedFor, Consistent;
    if e == EnterHandler { AccountedEnter(s, r); }
    else if e == CommandWritten || e == CommandThrows { AccountedSending(s, e, r); }
    else if e.EndOfLoop? { AccountedEnd(s, e.destroy, r); }
    else if WorkerEvent(e) { AccountedWorkerStep(s, e, r); }
    else { AccountedOtherStep(s, e, r); }
  }

  lemma AccountedEnter(s: State, r: Request)
    requires Consistent(s) && AccountedFor(s, r) && s.at.Dispatched?
    ensures AccountedFor(Apply(s, EnterHandler), r)
  {
    hide Tallies.With, Tallies.Of;
  }

  lemma AccountedSending(s: State, e: Event, r: Request)
    requires Consistent(s) && AccountedFor(s, r) && s.at.Sending? && (e == CommandWritten || e == CommandThrows)
    ensures AccountedFor(Apply(s, e), r)
  {
    OtherTallies(s.tally, s.at.r, s.tally.Of(s.at.r).(written := s.tally.Of(s.at.r).written + 1), r);
    OtherTallies(s.tally, s.at.r, s.tally.Of(s.at.r).(thrown := s.tally.Of(s.at.r).thrown + 1), r);
    hide Enter, Tallies.With, Tallies.Of;
  }

  lemma AccountedEnd(s: State, destroy: bool, r: Request)
    requires Consistent(s) && AccountedFor(s, r) && s.at == LoopEnd
    ensures AccountedFor(Apply(s, EndOfLoop(destroy)), r)
  {
    if destroy && RequestOf(s.cur).Some? {
      var q := RequestOf(s.cur).value;
      OtherTallies(s.tally, q, s.tally.Of(q).(dropped := s.tally.Of(q).dropped + 1), r);
    }
    hide Enter, Tallies.With, Tallies.Of;
  }

  lemma OtherTallies(t: Tallies, q: Request, n: Tally, r: Request)
    ensures t.With(q, n).Of(r) == if r == q then n else t.Of(r)
  {
  }

  lemma AccountedWorkerStep(s: State, e: Event, r: Request)
    requires Consistent(s) && AccountedFor(s, r) && Enabled(s, e) && WorkerEvent(e)
    requires e != EnterHandler && e != CommandWritten && e != CommandThrows && !e.EndOfLoop?
    ensures AccountedFor(Apply(s, e), r)
  {
    hide Enter, Tallies.With, Tallies.Of;
  }

  lemma AccountedOtherStep(s: State, e: Event, r: Request)
    requires Consistent(s) && AccountedFor(s, r) && !WorkerEvent(e)
    ensures AccountedFor(Apply(s, e), r)
  {
  }

  /** Every state of every interleaving satisfies the invariant. */
  lemma {:induction false} InvariantHolds(events: seq<Event>)
    requires After(events).Some?
    ensures Invariant(After(events).value)
  {
    if events != [] {
      InvariantHolds(events[..|events| - 1]);
      ConsistentStep(After(events[..|events| - 1]).value, events[|events| - 1]);
      forall r
        ensures AccountedFor(After(events).value, r)
      {
        AccountedStep(After(events[..|events| - 1]).value, events[|events| - 1], r);
      }
    }
  }

  /**
   * The assertions of the handlers hold in every interleaving: those at the start of a command
   * or of a launch, and those after it.
   */
  lemma AssertionsHold(events: seq<Event>)
    requires After(events).Some?
    ensures var s := After(events).value;
            && (s.at.Dispatched? && RequestOf(s.at.to).Some? ==> s.cur == s.at.to)
            && (s.at.Sent? && s.at.r != RestartClient ==> s.cur == UnderWay(s.at.r))
            && (s.at == InLaunch ==> s.cur == Starting)
  {
    InvariantHolds(events);
  }

  lemma AtFirst()
    ensures After([]) == Some(Initial)
  {
  }

  lemma Follow(events: seq<Event>, e: Event) returns (s: State)
    requires After(events).Some? && Enabled(After(events).value, e)
    ensures After(events + [e]) == Some(s) && s == Apply(After(events).value, e)
  {
    assert (events + [e])[..|events|] == events;
    s := Apply(After(events).value, e);
  }

  /** Where the dispatcher has sent the worker is where it found the state, and only others have run since. */
  lemma {:induction false} DispatchedSince(events: seq<Event>) returns (before: seq<Event>, more: seq<Event>)
    requires After(events).Some? && After(events).value.at.Dispatched?
    ensures events == before + [Dispatch] + more && After(before).Some?
    ensures After(before).value.at == LoopHead && After(before).value.cur == After(events).value.at.to
    ensures forall e :: e in more ==> !WorkerEvent(e)
    decreases |events|
  {
    var most, last := events[..|events| - 1], events[|events| - 1];
    if last == Dispatch {
      before, more := most, [];
    } else {
      before, more := DispatchedSince(most);
      more := more + [last];
    }
    assert events == most + [last];
  }

  /** What the others make of the state, while the worker waits. */
  ghost predicate Meanwhile(s: State, more: seq<Event>, t: State) {
    && t.at == s.at && t.wire == s.wire && t.launches == s.launches
    && (s.cur == Connecting ==> t.cur == if Ask(StartClient) in more then Start else Connecting)
    && (s.cur == Connected ==>
          if forall r :: r != StartClient ==> Ask(r) !in more then t.cur == Connected
          else t.cur in {Stop, Restart, Sync, Reload})
    && (s.cur == Restarting ==> t.cur == if exists status :: ProcessTerminates(status) in more then Start else Restarting)
    && (s.cur !in {Connecting, Connected, Restarting, StartWait} ==> t.cur == s.cur)
  }

  lemma {:induction false} OthersOnly(events: seq<Event>, more: seq<Event>)
    requires After(events).Some? && forall e :: e in more ==> !WorkerEvent(e)
    ensures After(events + more).Some? && Meanwhile(After(events).value, more, After(events + more).value)
    decreases |more|
  {
    hide Meanwhile;
    if more == [] {
      assert events + more == events;
      NothingMeanwhile(After(events).value);
    } else {
      var most, last := more[..|more| - 1], more[|more| - 1];
      assert more == most + [last] && last in more;
      OthersOnly(events, most);
      hide After, Apply;
      assert events + more == events + most + [last];
      MeanwhileStep(After(events).value, most, last, After(events + most).value);
      var t := Follow(events + most, last);
    }
  }

  lemma NothingMeanwhile(s: State)
    ensures Meanwhile(s, [], s)
  {
  }

  lemma MeanwhileStep(s: State, more: seq<Event>, last: Event, t: State)
    requires Meanwhile(s, more, t) && !WorkerEvent(last)
    ensures Enabled(t, last) && Meanwhile(s, more + [last], Apply(t, last))
  {
    hide Enter, Tallies.With, Tallies.Of;
    assert forall e :: e in more + [last] <==> e in more || e == last;
  }

  /** The assertion at the start of OnConnect holds exactly when no start has been asked for since the dispatch. */
  lemma ConnectAssertionHolds(before: seq<Event>, more: seq<Event>)
    requires After(before).Some? && After(before).value.at == LoopHead && After(before).value.cur == Connecting
    requires forall e :: e in more ==> !WorkerEvent(e)
    ensures After(before + [Dispatch] + more).Some?
    ensures After(before + [Dispatch] + more).value.cur == Connecting <==> Ask(StartClient) !in more
  {
    var s := Follow(before, Dispatch);
    hide After;
    OthersOnly(before + [Dispatch], more);
  }

  /**
   * That at the start of OnConnectedIdle holds exactly when, since the dispatch, no command has
   * been asked for or, in a restart, no process has terminated.
   */
  lemma IdleAssertionHolds(before: seq<Event>, more: seq<Event>)
    requires After(before).Some? && After(before).value.at == LoopHead && After(before).value.cur in {Connected, Restarting}
    requires forall e :: e in more ==> !WorkerEvent(e)
    ensures After(before + [Dispatch] + more).Some?
    ensures After(before + [Dispatch] + more).value.cur in {Connected, Restarting} <==>
            if After(before).value.cur == Connected then forall r :: r != StartClient ==> Ask(r) !in more
            else forall status :: ProcessTerminates(status) !in more
  {
    var s := Follow(before, Dispatch);
    hide After;
    OthersOnly(before + [Dispatch], more);
  }

  /** A request comes between the dispatch and the assertion at the start of OnConnect. */
  lemma ConnectAssertionCanFail() returns (events: seq<Event>)
    ensures After(events).Some?
    ensures var s := After(events).value; s.at == Dispatched(Connecting) && s.cur == Start
  {
    hide After;
    AtFirst();
    var s := Follow([], Dispatch);
    events := [] + [Dispatch];
    s := Follow(events, Ask(StartClient));
    events := events + [Ask(StartClient)];
  }

  /** A request comes between the dispatch and the assertion at the start of OnConnectedIdle. */
  lemma IdleAssertionCanFail() returns (events: seq<Event>)
    ensures After(events).Some?
    ensures var s := After(events).value; s.at == Dispatched(Connected) && s.cur == Stop
  {
    hide After;
    events := ConnectedAtHead();
    var s := Follow(events, Dispatch);
    events := events + [Dispatch];
    s := Follow(events, Ask(StopClient));
    events := events + [Ask(StopClient)];
  }

  /** In a restart, so does the end of the terminated process. */
  lemma RestartAssertionCanFail() returns (events: seq<Event>)
    ensures After(events).Some?
    ensures var s := After(events).value; s.at == Dispatched(Restarting) && s.cur == Start
  {
    hide After;
    events := RestartUnderWay();
    var s := Follow(events, CommandWritten);
    events := events + [CommandWritten];
    s := Follow(events, FinishCommand);
    events := events + [FinishCommand];
    s := Follow(events, EndOfLoop(false));
    events := events + [EndOfLoop(false)];
    s := Follow(events, Dispatch);
    events := events + [Dispatch];
    s := Follow(events, ProcessTerminates(0));
    events := events + [ProcessTerminates(0)];
  }

  lemma RestartUnderWay() returns (events: seq<Event>)
    ensures After(events).Some?
    ensures var s := After(events).value; s.at == Sending(RestartClient) && s.cur == Restarting
  {
    hide After;
    events := ConnectedAtHead();
    var s := Follow(events, Ask(RestartClient));
    events := events + [Ask(RestartClient)];
    s := Follow(events, Dispatch);
    events := events + [Dispatch];
    s := Follow(events, EnterHandler);
    events := events + [EnterHandler];
  }

  lemma ConnectedAtHead() returns (events: seq<Event>)
    ensures After(events).Some?
    ensures var s := After(events).value; s.at == LoopHead && s.cur == Connected
  {
    hide After;
    AtFirst();
    var s := Follow([], Dispatch);
    events := [] + [Dispatch];
    s := Follow(events, EnterHandler);
    events := events + [EnterHandler];
    s := Follow(events, ConnectReturns(NoError));
    events := events + [ConnectReturns(NoError)];
    s := Follow(events, EndOfLoop(false));
    events := events + [EndOfLoop(false)];
  }

  /**
   * An accepted request stays in the shared state until the worker takes it; nothing else but
   * the destruction of the worker removes it.
   */
  lemma RequestStays(events: seq<Event>, e: Event, r: Request)
    requires After(events).Some? && Enabled(After(events).value, e)
    requires After(events).value.cur == Pending(r)
    ensures var s, t := After(events).value, Apply(After(events).value, e);
            || t.cur == Pending(r)
            || (e == EnterHandler && s.at == Dispatched(Pending(r)) && t.cur == UnderWay(r))
            || (e == EndOfLoop(true) && t.cur == Shutdown)
  {
    InvariantHolds(events);
  }

  /** Each accepted command request has led to exactly one command, unless that is still to come, threw, or was cut off by shutdown. */
  lemma OneCommandPerRequest(events: seq<Event>, r: Request)
    requires After(events).Some? && r != StartClient
    ensures var s := After(events).value;
            s.tally.Of(r).accepted == s.tally.Of(r).written + s.tally.Of(r).thrown + s.tally.Of(r).dropped + Open(s, r)
  {
    InvariantHolds(events);
    assert AccountedFor(After(events).value, r);
  }

  /** Each accepted start, and each restart that has come so far, has led to exactly one launch, unless that is still to come or was cut off by shutdown. */
  lemma OneLaunchPerStart(events: seq<Event>)
    requires After(events).Some?
    ensures var s := After(events).value;
            s.tally.start.accepted + s.startsAfterRestart == s.launches + s.tally.start.dropped + Open(s, StartClient)
  {
    InvariantHolds(events);
    assert AccountedFor(After(events).value, StartClient);
  }

  /** The commands on the wire are those written for requests, each the one for its request. */
  ghost predicate WireRight(s: State) {
    && multiset(s.wire)[Terminate] == s.tally.stop.written + s.tally.restart.written
    && multiset(s.wire)[ForceSync] == s.tally.sync.written
    && multiset(s.wire)[ReloadConfig] == s.tally.reload.written
  }

  /** In every interleaving the commands on the wire are the right ones. */
  lemma {:induction false} CommandsOnTheWire(events: seq<Event>)
    requires After(events).Some?
    ensures WireRight(After(events).value)
  {
    if events != [] {
      var before := events[..|events| - 1];
      CommandsOnTheWire(before);
      InvariantHolds(before);
      WireStep(After(before).value, events[|events| - 1]);
    }
  }

  lemma WireStep(s: State, e: Event)
    requires Consistent(s) && WireRight(s) && Enabled(s, e)
    ensures WireRight(Apply(s, e))
  {
    if e == CommandWritten {
      WireWritten(s);
    } else {
      WireKept(s, e);
    }
  }

  lemma WireWritten(s: State)
    requires s.at.Sending? && s.at.r != StartClient && WireRight(s)
    ensures WireRight(Apply(s, CommandWritten))
  {
    assert multiset(Apply(s, CommandWritten).wire) == multiset(s.wire) + multiset{CommandOf(s.at.r)};
  }

  lemma WireKept(s: State, e: Event)
    requires Enabled(s, e) && e != CommandWritten && WireRight(s)
    ensures WireRight(Apply(s, e))
  {
    assert Apply(s, e).wire == s.wire;
  }

  /** Restarting is left only for Start, or when the worker is destroyed. */
  lemma RestartingEndsInStart(events: seq<Event>, e: Event)
    requires After(events).Some? && Enabled(After(events).value, e)
    requires After(events).value.cur == Restarting
    ensures var t := Apply(After(events).value, e);
            if e == EndOfLoop(true) then t.cur == Shutdown else t.cur == Restarting || t.cur == Start
  {
    InvariantHolds(events);
  }

  /** The worker is destroyed in a restart. */
  lemma RestartCanEndInShutdown() returns (events: seq<Event>)
    ensures After(events).Some? && Enabled(After(events).value, EndOfLoop(true))
    ensures After(events).value.cur == Restarting && Apply(After(events).value, EndOfLoop(true)).cur == Shutdown
  {
    hide After;
    events := RestartUnderWay();
    var s := Follow(events, CommandThrows);
    events := events + [CommandThrows];
  }

  // ----- how soon a request is served -----

  /** The worker's own steps until it sends the command of an open request, or launches the process for a start. */
  function StepsLeft(s: State, r: Request): nat {
    (if s.at == Sending(r) then 1
     else if s.at == Dispatched(Pending(r)) then 2
     else if s.at == LoopHead then 3
     else if s.at == LoopEnd then 4
     else if s.at.Dispatched? then 6
     else if s.at.Sending? then 6
     else 5) - if r == StartClient && s.at != Sending(r) then 1 else 0
  }

  /**
   * While a request is open, the others change nothing about how far it is from being served, and
   * each step of the worker brings it closer, until the command is sent or the process is launched.
   */
  lemma WorkerComesCloser(events: seq<Event>, e: Event, r: Request)
    requires After(events).Some? && Enabled(After(events).value, e)
    requires Open(After(events).value, r) == 1 && e != EndOfLoop(true)
    ensures var s, t := After(events).value, Apply(After(events).value, e);
            if !WorkerEvent(e) then Open(t, r) == 1 && StepsLeft(t, r) == StepsLeft(s, r)
            else if StepsLeft(s, r) == 1 then
              Open(t, r) == 0 && Handled(t, r) == Handled(s, r) + 1 && (r == StartClient ==> t.cur == Starting)
            else Open(t, r) == 1 && StepsLeft(t, r) < StepsLeft(s, r)
  {
    InvariantHolds(events);
    hide After, Accounted;
    if WorkerEvent(e) { WorkerStepIsCloser(After(events).value, e, r); } else { OtherStepStays(After(events).value, e, r); }
  }

  lemma OtherStepStays(s: State, e: Event, r: Request)
    requires Consistent(s) && !WorkerEvent(e) && Open(s, r) == 1
    ensures Open(Apply(s, e), r) == 1 && StepsLeft(Apply(s, e), r) == StepsLeft(s, r)
  {
    hide Enter, Tallies.With, Tallies.Of;
  }

  lemma WorkerStepIsCloser(s: State, e: Event, r: Request)
    requires Consistent(s) && Enabled(s, e) && WorkerEvent(e) && Open(s, r) == 1 && e != EndOfLoop(true)
    ensures var t := Apply(s, e);
            if StepsLeft(s, r) == 1 then Open(t, r) == 0 && Handled(t, r) == Handled(s, r) + 1 && (r == StartClient ==> t.cur == Starting)
            else Open(t, r) == 1 && StepsLeft(t, r) < StepsLeft(s, r)
  {
  }

  function Handled(s: State, r: Request): nat {
    if r == StartClient then s.launches else s.tally.Of(r).written + s.tally.Of(r).thrown
  }

  function WorkerSteps(events: seq<Event>): nat {
    if events == [] then 0 else WorkerSteps(events[..|events| - 1]) + if WorkerEvent(events[|events| - 1]) then 1 else 0
  }

  /**
   * However the others interleave, the command of an open request is sent within six steps of the
   * worker, and a start that is open leads to a launch within five.
   */
  lemma {:induction false} ServedWithinSixSteps(events: seq<Event>, more: seq<Event>, r: Request)
    requires After(events + more).Some? && After(events).Some?
    requires Open(After(events).value, r) == 1 && EndOfLoop(true) !in more
    ensures var s, t := After(events).value, After(events + more).value;
            && Handled(t, r) >= Handled(s, r)
            && (Handled(t, r) > Handled(s, r) || (Open(t, r) == 1 && WorkerSteps(more) + StepsLeft(t, r) <= StepsLeft(s, r) <= if r == StartClient then 5 else 6))
    decreases |more|
  {
    if more == [] {
      assert events + more == events;
    } else {
      var most, e := more[..|more| - 1], more[|more| - 1];
      assert (events + more)[..|events + more| - 1] == events + most;
      ServedWithinSixSteps(events, most, r);
      var u := After(events + most).value;
      if Open(u, r) == 1 && WorkerSteps(most) + StepsLeft(u, r) <= StepsLeft(After(events).value, r) {
        WorkerComesCloser(events + most, e, r);
      }
      SentGrows(events + most, e, r);
    }
  }

  lemma SentGrows(events: seq<Event>, e: Event, r: Request)
    requires After(events).Some? && Enabled(After(events).value, e)
    ensures var s, t := After(events).value, Apply(After(events).value, e);
            Handled(t, r) >= Handled(s, r)
  {
    HandledGrows(After(events).value, e, r);
  }

  lemma HandledGrows(s: State, e: Event, r: Request)
    requires Enabled(s, e)
    ensures Handled(Apply(s, e), r) >= Handled(s, r)
  {
    if e != EnterHandler { hide Enter; }
  }

  // ----- a command that throws -----

  /** A command is marked as under way, but the worker is not in its handler any more. */
  predicate Stuck(s: State) {
    s.cur in {Stopping, Syncing, Reloading} && !s.at.Sending? && !s.at.Sent?
  }

  predicate Blocked(s: State) {
    Stuck(s) || s.cur == Shutdown
  }

  lemma BlockedStays(s: State, e: Event, r: Request)
    requires Consistent(s) && Blocked(s) && Enabled(s, e)
    ensures Blocked(Apply(s, e)) && Apply(s, e).tally.Of(r).accepted == s.tally.Of(r).accepted
  {
  }

  /** Some command other than that of a restart has thrown. */
  predicate CommandThrew(s: State) {
    s.tally.stop.thrown + s.tally.sync.thrown + s.tally.reload.thrown > 0
  }

  /** The worker is blocked exactly when such a command has thrown, or it has been destroyed. */
  lemma {:induction false} BlockedExactly(events: seq<Event>)
    requires After(events).Some?
    ensures Blocked(After(events).value) <==> CommandThrew(After(events).value) || After(events).value.cur == Shutdown
  {
    if events != [] {
      var before := events[..|events| - 1];
      BlockedExactly(before);
      InvariantHolds(before);
      BlockedStep(After(before).value, events[|events| - 1]);
    }
  }

  lemma BlockedStep(s: State, e: Event)
    requires Consistent(s) && Enabled(s, e) && (Blocked(s) <==> CommandThrew(s) || s.cur == Shutdown)
    ensures Blocked(Apply(s, e)) <==> CommandThrew(Apply(s, e)) || Apply(s, e).cur == Shutdown
  {
  }

  /** Once the worker is blocked, no request is accepted. */
  lemma {:induction false} BlockedForGood(events: seq<Event>, more: seq<Event>, r: Request)
    requires After(events + more).Some? && After(events).Some? && Blocked(After(events).value)
    ensures Blocked(After(events + more).value)
    ensures After(events + more).value.tally.Of(r).accepted == After(events).value.tally.Of(r).accepted
    decreases |more|
  {
    if more == [] {
      assert events + more == events;
    } else {
      var most := more[..|more| - 1];
      assert (events + more)[..|events + more| - 1] == events + most;
      BlockedForGood(events, most, r);
      InvariantHolds(events + most);
      hide Apply;
      BlockedStays(After(events + most).value, more[|more| - 1], r);
    }
  }

  /** When writing the command of a request, but not of a restart, throws, no request is accepted ever after. */
  lemma ThrownCommandBlocks(events: seq<Event>, more: seq<Event>, r: Request)
    requires After(events).Some? && After(events).value.at.Sending? && After(events).value.at.r != RestartClient
    requires After(events + [CommandThrows] + more).Some?
    ensures var t := After(events + [CommandThrows] + more).value;
            Blocked(t) && t.tally.Of(r).accepted == After(events).value.tally.Of(r).accepted
  {
    InvariantHolds(events);
    hide After;
    var s := Follow(events, CommandThrows);
    BlockedForGood(events + [CommandThrows], more, r);
  }

  /** A stop is sent, which may throw. */
  lemma CommandCanThrow() returns (events: seq<Event>)
    ensures After(events).Some? && CommandThrew(After(events).value) && After(events).value.cur == Stopping
  {
    hide After;
    events := ConnectedAtHead();
    var s := Follow(events, Ask(StopClient));
    events := events + [Ask(StopClient)];
    s := Follow(events, Dispatch);
    events := events + [Dispatch];
    s := Follow(events, EnterHandler);
    events := events + [EnterHandler];
    s := Follow(events, CommandThrows);
    events := events + [CommandThrows];
  }

  /** The next step on the way to a state in which a request is accepted. */
  function NextStep(s: State): Event {
    if s.cur == Restarting then ProcessTerminates(0)
    else
      match s.at
      case LoopHead => Dispatch
      case Dispatched(_) => EnterHandler
      case InConnect => ConnectReturns(NoError)
      case InRead => ReadReturns(NoError)
      case InLaunch => LaunchReturns(NoError)
      case Sending(_) => CommandWritten
      case Sent(_) => FinishCommand
      case _ => EndOfLoop(false)
  }

  function StepsToAccept(s: State): nat {
    if s.cur == Connecting || s.cur == Connected then 0
    else if s.cur == Restarting then 40
    else if RequestOf(s.cur).Some? then
      (if s.cur == Restart then 60 else 20) +
      if s.at == Dispatched(s.cur) then 1 else if s.at == LoopHead then 2 else if s.at == LoopEnd then 3
      else if s.at.Sending? then 5 else 4
    else if s.at.Sent? then 9 else 10
  }

  lemma StepToAccept(s: State)
    requires Consistent(s) && !Blocked(s) && StepsToAccept(s) > 0
    ensures Enabled(s, NextStep(s))
    ensures var t := Apply(s, NextStep(s));
            && !Blocked(t) && StepsToAccept(t) < StepsToAccept(s)
            && t.tally.start.accepted == s.tally.start.accepted && t.tally.stop.accepted == s.tally.stop.accepted
  {
  }

  /** Unless the worker is blocked, a request can still be accepted. */
  lemma {:induction false} NotBlockedAccepts(events: seq<Event>) returns (more: seq<Event>, r: Request)
    requires After(events).Some? && !Blocked(After(events).value)
    ensures After(events + more).Some?
    ensures After(events + more).value.tally.Of(r).accepted > After(events).value.tally.Of(r).accepted
    ensures r == StartClient || r == StopClient
    decreases StepsToAccept(After(events).value)
  {
    hide After;
    var s := After(events).value;
    if StepsToAccept(s) == 0 {
      r := if s.cur == Connecting then StartClient else StopClient;
      more := [Ask(r)];
      var _ := Follow(events, Ask(r));
    } else {
      InvariantHolds(events);
      StepToAccept(s);
      var t := Follow(events, NextStep(s));
      var rest;
      rest, r := NotBlockedAccepts(events + [NextStep(s)]);
      more := [NextStep(s)] + rest;
      assert events + more == events + [NextStep(s)] + rest;
    }
  }

  /** In some continuation a request is accepted, exactly if no such command has thrown and the worker has not been destroyed. */
  lemma RequestsAreStillAccepted(events: seq<Event>)
    requires After(events).Some?
    ensures (exists more, r: Request :: After(events + more).Some? &&
               After(events + more).value.tally.Of(r).accepted > After(events).value.tally.Of(r).accepted) <==>
            !CommandThrew(After(events).value) && After(events).value.cur != Shutdown
  {
    hide After, Blocked, CommandThrew;
    BlockedExactly(events);
    if Blocked(After(events).value) {
      forall more, r: Request | After(events + more).Some?
        ensures After(events + more).value.tally.Of(r).accepted == After(events).value.tally.Of(r).accepted
      {
        BlockedForGood(events, more, r);
      }
    } else {
      var more, r := NotBlockedAccepts(events);
    }
  }

  // ----- the handlers as they are written -----

  /** How many handlers have been entered. */
  ghost function Rounds(events: seq<Event>): nat {
    multiset(events)[EnterHandler]
  }

  /** Where the state can be after the others have run. */
  predicate Waiting(before: WorkerState, after: WorkerState) {
    || after == before
    || ((before == Connecting || before == Restarting) && after == Start)
    || (before == Connected && (after == Stop || after == Restart || after == Sync || after == Reload))
  }

  /** Only the others have run. */
  ghost predicate OthersRan(before: seq<Event>, after: seq<Event>) {
    && before <= after && Rounds(after) == Rounds(before)
    && forall i :: |before| <= i < |after| ==> !WorkerEvent(after[i])
  }

  lemma OthersGoOn(before: seq<Event>, after: seq<Event>, e: Event)
    requires OthersRan(before, after) && !WorkerEvent(e)
    ensures OthersRan(before, after + [e])
  {
  }

  lemma OtherStep(s: State, e: Event, before: WorkerState)
    requires Consistent(s) && !WorkerEvent(e) && Waiting(before, s.cur)
    ensures Enabled(s, e)
    ensures var t := Apply(s, e);
            t.at == s.at && t.wire == s.wire && t.launches == s.launches && Waiting(before, t.cur)
  {
    hide Tallies.With, Tallies.Of;
  }

  /** One handler: it is entered, and with anything from the others in between, ends in `last`. */
  ghost predicate ReturnedWith(before: seq<Event>, last: Event, after: seq<Event>) {
    && |after| >= |before| + 2 && before <= after
    && after[|before|] == EnterHandler && after[|after| - 1] == last
    && forall i :: |before| < i < |after| - 1 ==> !WorkerEvent(after[i])
  }

  lemma Returned(before: seq<Event>, last: Event, others: seq<Event>)
    requires OthersRan(before + [EnterHandler], others)
    ensures ReturnedWith(before, last, others + [last])
  {
  }

  lemma ReadEntered(s: State)
    requires s.at == Dispatched(Connected) || s.at == Dispatched(Restarting)
    ensures var t := Apply(s, EnterHandler);
            t.cur == s.cur && t.err == s.err && t.at == if s.cur == Connected || s.cur == Restarting then InRead else LoopEnd
  {
  }

  lemma ReadApplied(s: State, read: Error)
    requires s.at == InRead
    ensures var t := Apply(s, ReadReturns(read));
            && t.at == LoopEnd
            && (s.cur == Connected ==>
                  t.cur == (if read == Disconnected then Connecting else Connected) && t.err == (if read == ReadTimeout then NoError else read))
            && (s.cur == Restarting ==>
                  t.cur == (if read == Disconnected then Start else Restarting) &&
                  t.err == (if read == ReadTimeout || read == Disconnected then NoError else read))
            && (s.cur != Connected && s.cur != Restarting ==> t.cur == s.cur && t.err == Interrupted)
  {
  }

  class ClientConnection {
    var currentState: WorkerState
    var lastError: Error
    /** What has happened so far, and the state that this adds up to. */
    ghost var events: seq<Event>
    ghost var st: State

    /** The fields are what the events make of them. */
    ghost predicate Valid()
      reads this
    {
      After(events) == Some(st) && Invariant(st) && st.cur == currentState && st.err == lastError
    }

    constructor ()
      ensures Valid() && st == Initial
    {
      currentState, lastError := Connecting, NoError;
      events, st := [], Initial;
    }

    /** The locked section that has just changed the fields is the event `e`. */
    ghost method Note(e: Event)
      requires After(events) == Some(st) && Enabled(st, e)
      requires Apply(st, e).cur == currentState && Apply(st, e).err == lastError
      modifies this`events, this`st
      ensures Valid() && st == Apply(old(st), e) && events == old(events) + [e]
      ensures Rounds(events) == Rounds(old(events)) + if e == EnterHandler then 1 else 0
    {
      var t := Follow(events, e);
      events, st := events + [e], t;
      InvariantHolds(events);
    }

    // ----- the user interface and the callback -----

    method SetWorkerState(r: Request) returns (ok: bool)
      requires Valid()
      modifies this
      ensures Valid() && st == Apply(old(st), Ask(r)) && events == old(events) + [Ask(r)]
      ensures ok == (old(currentState) == AskedIn(r))
      ensures currentState == if ok then Pending(r) else old(currentState)
      ensures ok <==> old(currentState) == if r == StartClient then Connecting else Connected
      ensures ok ==> currentState == match r
                                     case StartClient => Start
                                     case StopClient => Stop
                                     case RestartClient => Restart
                                     case SyncClient => Sync
                                     case ReloadClient => Reload
      ensures lastError == if ok then old(lastError) else InvalidState
    {
      if currentState != AskedIn(r) {
        lastError := InvalidState;
        ok := false;
      } else {
        currentState := Pending(r);
        ok := true;
      }
      Note(Ask(r));
    }

    method OnClientTerminate(status: int)
      requires Valid()
      modifies this
      ensures Valid() && st == Apply(old(st), ProcessTerminates(status)) && events == old(events) + [ProcessTerminates(status)]
      ensures currentState == match old(currentState)
                              case Restarting => Start
                              case StartWait => Connecting
                              case other => other
      ensures lastError == if status != 0 && old(currentState) in {StartWait, Connecting, Restarting} then StartFailed else old(lastError)
    {
      if currentState == StartWait || currentState == Connecting || currentState == Restarting {
        currentState := if currentState == Restarting then Start else Connecting;
        if status != 0 {
          lastError := StartFailed;
        }
      }
      Note(ProcessTerminates(status));
    }

    /** While the worker does not hold the lock, the others do whatever they want. */
    method OthersRun()
      requires Valid()
      modifies this
      ensures Valid() && st.at == old(st.at) && st.wire == old(st.wire) && st.launches == old(st.launches)
      ensures OthersRan(old(events), events) && old(events) <= events && Rounds(events) == Rounds(old(events))
      ensures Waiting(old(currentState), currentState)
    {
      assert OthersRan(events, events) && Waiting(currentState, currentState);
      hide After, Accounted, Consistent, Apply, Waiting, Rounds, OthersRan;
      var turns: int := *;
      var i := 0;
      while i < turns
        invariant Valid() && st.at == old(st.at) && st.wire == old(st.wire) && st.launches == old(st.launches)
        invariant OthersRan(old(events), events) && old(events) <= events && Rounds(events) == Rounds(old(events))
        invariant Waiting(old(currentState), currentState)
      {
        i := i + 1;
        ghost var before, was := events, st;
        if * {
          var r: Request := *;
          var _ := SetWorkerState(r);
          OthersGoOn(old(events), before, Ask(r));
          OtherStep(was, Ask(r), old(currentState));
        } else {
          var status: int := *;
          OnClientTerminate(status);
          OthersGoOn(old(events), before, ProcessTerminates(status));
          OtherStep(was, ProcessTerminates(status), old(currentState));
        }
      }
    }

    // ----- the worker -----

    /** `result` is what the attempt to connect gives. */
    method OnConnect(result: Error)
      requires Valid() && st.at == Dispatched(Connecting)
      modifies this
      ensures Valid() && st.at == LoopEnd && old(events) <= events && Rounds(events) == Rounds(old(events)) + 1
      ensures old(currentState) != Connecting ==>
                events == old(events) + [EnterHandler] && currentState == old(currentState) && lastError == old(lastError)
      ensures old(currentState) == Connecting ==> ReturnedWith(old(events), ConnectReturns(result), events)
      ensures old(currentState) == Connecting ==>
                || currentState == Start
                || (currentState == (if result == NoError then Connected else Connecting) && (result != Interrupted ==> lastError == result))
    {
      hide After, Accounted, Tallies.With, Tallies.Of, Rounds, OthersRan, ReturnedWith;
      var asked := currentState != Connecting;
      Note(EnterHandler);
      if asked { return; }
      OthersRun();
      if currentState == Connecting {
        if result == NoError {
          currentState := Connected;
        }
        if result != Interrupted {
          lastError := result;
        }
      }
      ghost var others := events;
      Note(ConnectReturns(result));
      Returned(old(events), ConnectReturns(result), others);
    }

    /** `read` is what reading a line gives. */
    method OnConnectedIdle(read: Error)
      requires Valid() && (st.at == Dispatched(Connected) || st.at == Dispatched(Restarting))
      modifies this
      ensures Valid() && st.at == LoopEnd && old(events) <= events && Rounds(events) == Rounds(old(events)) + 1
      ensures old(currentState) !in {Connected, Restarting} ==>
                events == old(events) + [EnterHandler] && currentState == old(currentState) && lastError == old(lastError)
      ensures old(currentState) in {Connected, Restarting} ==> ReturnedWith(old(events), ReadReturns(read), events)
      ensures old(currentState) == Connected ==>
                || (currentState in {Stop, Restart, Sync, Reload} && lastError == Interrupted)
                || (currentState == (if read == Disconnected then Connecting else Connected) &&
                    lastError == (if read == ReadTimeout then NoError else read))
      ensures old(currentState) == Restarting ==>
                || (currentState == Start && lastError == Interrupted)
                || (currentState == (if read == Disconnected then Start else Restarting) &&
                    lastError == (if read == ReadTimeout || read == Disconnected then NoError else read))
    {
      hide After, Apply, Invariant, Rounds, OthersRan, ReturnedWith;
      var asked := currentState != Connected && currentState != Restarting;
      ReadEntered(st);
      Note(EnterHandler);
      if asked { return; }
      OthersRun();
      var result := read;
      if currentState != Connected && currentState != Restarting {
        lastError := Interrupted;
      } else {
        if result == Disconnected {
          if currentState == Connected {
            currentState := Connecting;
          } else {
            currentState := Start;
            result := NoError;
          }
        }
        lastError := if result == ReadTimeout then NoError else result;
      }
      ghost var others := events;
      ReadApplied(st, read);
      Note(ReadReturns(read));
      Returned(old(events), ReadReturns(read), others);
    }

    /** `result` is what launching the daemon gives. */
    method OnStartClient(result: Error)
      requires Valid() && st.at == Dispatched(Start)
      modifies this
      ensures Valid() && st.at == LoopEnd && old(events) <= events && Rounds(events) == Rounds(old(events)) + 1
      ensures ReturnedWith(old(events), LaunchReturns(result), events)
      ensures currentState == Connecting && lastError == result && st.launches == old(st.launches) + 1
    {
      hide After, Accounted, Tallies.With, Tallies.Of, Rounds, OthersRan, ReturnedWith;
      assert currentState == Start;
      currentState := Starting;
      Note(EnterHandler);
      OthersRun();
      assert currentState == Starting;
      currentState, lastError := Connecting, result;
      ghost var others := events;
      Note(LaunchReturns(result));
      Returned(old(events), LaunchReturns(result), others);
    }

    /** Write the command of the request under way, which may throw. */
    method SendCommand(command: Command, throws: bool, ghost r: Request)
      requires Valid() && st.at == Sending(r) && r != StartClient && command == CommandOf(r)
      modifies this
      ensures Valid() && old(events) <= events && Rounds(events) == Rounds(old(events))
      ensures st.at == if throws then LoopEnd else Sent(r)
      ensures st.wire == if throws then old(st.wire) else old(st.wire) + [command]
      ensures old(currentState) !in {Connecting, Connected, Restarting} ==> currentState == old(currentState)
      ensures old(currentState) == Restarting ==> currentState == Restarting || currentState == Start
    {
      hide After, Accounted, Consistent, Tallies.With, Tallies.Of, Rounds, OthersRan;
      OthersRun();
      if throws {
        Note(CommandThrows);
        return;
      }
      Note(CommandWritten);
      OthersRun();
    }

    method OnStopClient(throws: bool)
      requires Valid() && st.at == Dispatched(Stop)
      modifies this
      ensures Valid() && st.at == LoopEnd && old(events) <= events && Rounds(events) == Rounds(old(events)) + 1
      ensures if throws then currentState == Stopping && st.wire == old(st.wire)
              else currentState == Connected && lastError == NoError && st.wire == old(st.wire) + [Terminate]
    {
      hide After, Accounted, Tallies.With, Tallies.Of, Rounds, OthersRan, ReturnedWith;
      assert currentState == Stop;
      currentState := Stopping;
      Note(EnterHandler);
      SendCommand(Terminate, throws, StopClient);
      if throws { return; }
      assert currentState == Stopping;
      currentState, lastError := Connected, NoError;
      Note(FinishCommand);
    }

    method OnRestartClient(throws: bool)
      requires Valid() && st.at == Dispatched(Restart)
      modifies this
      ensures Valid() && st.at == LoopEnd && old(events) <= events && Rounds(events) == Rounds(old(events)) + 1
      ensures if throws then currentState in {Restarting, Start} && st.wire == old(st.wire)
              else currentState in {Restarting, Start} && lastError == NoError && st.wire == old(st.wire) + [Terminate]
    {
      hide After, Accounted, Tallies.With, Tallies.Of, Rounds, OthersRan, ReturnedWith;
      assert currentState == Restart;
      currentState := Restarting;
      Note(EnterHandler);
      SendCommand(Terminate, throws, RestartClient);
      if throws { return; }
      lastError := NoError;
      Note(FinishCommand);
    }

    method OnSyncClient(throws: bool)
      requires Valid() && st.at == Dispatched(Sync)
      modifies this
      ensures Valid() && st.at == LoopEnd && old(events) <= events && Rounds(events) == Rounds(old(events)) + 1
      ensures if throws then currentState == Syncing && st.wire == old(st.wire)
              else currentState == Connected && lastError == NoError && st.wire == old(st.wire) + [ForceSync]
    {
      hide After, Accounted, Tallies.With, Tallies.Of, Rounds, OthersRan, ReturnedWith;
      assert currentState == Sync;
      currentState := Syncing;
      Note(EnterHandler);
      SendCommand(ForceSync, throws, SyncClient);
      if throws { return; }
      assert currentState == Syncing;
      currentState, lastError := Connected, NoError;
      Note(FinishCommand);
    }

    method OnReloadClient(throws: bool)
      requires Valid() && st.at == Dispatched(Reload)
      modifies this
      ensures Valid() && st.at == LoopEnd && old(events) <= events && Rounds(events) == Rounds(old(events)) + 1
      ensures if throws then currentState == Reloading && st.wire == old(st.wire)
              else currentState == Connected && lastError == NoError && st.wire == old(st.wire) + [ReloadConfig]
    {
      hide After, Accounted, Tallies.With, Tallies.Of, Rounds, OthersRan, ReturnedWith;
      assert currentState == Reload;
      currentState := Reloading;
      Note(EnterHandler);
      SendCommand(ReloadConfig, throws, ReloadClient);
      if throws { return; }
      assert currentState == Reloading;
      currentState, lastError := Connected, NoError;
      Note(FinishCommand);
    }

    /** The handler of the state that was read at the head of the loop. */
    method Handle(to: WorkerState)
      requires Valid() && st.at == Dispatched(to)
      modifies this
      ensures Valid() && st.at == LoopEnd && old(events) <= events && Rounds(events) == Rounds(old(events)) + 1
    {
      hide After, Accounted, Tallies.With, Tallies.Of, Rounds, OthersRan, ReturnedWith;
      var result: Error := *;
      var throws: bool := *;
      if to == Connecting {
        OnConnect(result);
      } else if to == Connected || to == Restarting {
        OnConnectedIdle(result);
      } else if to == Start {
        OnStartClient(result);
      } else if to == Stop {
        OnStopClient(throws);
      } else if to == Restart {
        OnRestartClient(throws);
      } else if to == Sync {
        OnSyncClient(throws);
      } else if to == Reload {
        OnReloadClient(throws);
      } else {
        Note(EnterHandler);
      }
    }

    /** The worker's loop, for as many rounds as it gets. */
    method Entry(rounds: nat)
      requires Valid() && st.at == LoopHead
      modifies this
      ensures Valid() && old(events) <= events
      ensures After(events).Some? && After(events).value.cur == currentState && After(events).value.err == lastError
      ensures currentState == Shutdown || Rounds(events) == Rounds(old(events)) + rounds
    {
      hide After, Invariant, Tallies.With, Tallies.Of, Rounds, OthersRan;
      var round := 0;
      while currentState != Shutdown && round < rounds
        invariant Valid() && st.at == LoopHead && old(events) <= events
        invariant round <= rounds && Rounds(events) == Rounds(old(events)) + round
      {
        OthersRun();
        var previous := currentState;
        lastError := NoError;
        Note(Dispatch);
        OthersRun();
        Handle(previous);
        OthersRun();
        var destroy: bool := *;
        if destroy {
          currentState := Shutdown;
        }
        Note(EndOfLoop(destroy));
        if destroy { return; }
        OthersRun();
        round := round + 1;
      }
    }
  }
}
