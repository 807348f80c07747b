/**
 * What the results of the worker's calls do, over whole runs of it and of the others: connecting,
 * reading a status line, launching the daemon and writing a command (src/ClientConnection.cc).
 */
module ConnectionHistory {
  import opened Common
  import opened ClientConnection

  // ----- the states of the requests -----

  /** Where each request can be made, how it waits for the worker, how it is under way, and what is written for it. */
  lemma StatesOfRequests()
    ensures AskedIn(StartClient) == Connecting && Pending(StartClient) == Start && UnderWay(StartClient) == Starting
    ensures AskedIn(StopClient) == Connected && Pending(StopClient) == Stop && UnderWay(StopClient) == Stopping
    ensures AskedIn(RestartClient) == Connected && Pending(RestartClient) == Restart && UnderWay(RestartClient) == Restarting
    ensures AskedIn(SyncClient) == Connected && Pending(SyncClient) == Sync && UnderWay(SyncClient) == Syncing
    ensures AskedIn(ReloadClient) == Connected && Pending(ReloadClient) == Reload && UnderWay(ReloadClient) == Reloading
    ensures CommandOf(StopClient) == CommandOf(RestartClient) == Terminate
    ensures CommandOf(SyncClient) == ForceSync && CommandOf(ReloadClient) == ReloadConfig
  {
  }

  // ----- between two steps of the worker -----

  /** One more step of the worker after the others. */
  lemma ThenWorker(events: seq<Event>, more: seq<Event>, e: Event) returns (t: State, u: State)
    requires After(events).Some? && (forall e :: e in more ==> !WorkerEvent(e))
    requires forall t: State :: t.at == After(events).value.at ==> Enabled(t, e)
    ensures After(events + more) == Some(t) && Meanwhile(After(events).value, more, t)
    ensures Enabled(t, e) && After(events + more + [e]) == Some(u) && u == Apply(t, e)
  {
    hide Meanwhile, Apply;
    OthersOnly(events, more);
    t := After(events + more).value;
    assert t.at == After(events).value.at by { SamePlace(After(events).value, more, t); }
    u := Follow(events + more, e);
  }

  lemma SamePlace(s: State, more: seq<Event>, t: State)
    requires Meanwhile(s, more, t)
    ensures t.at == s.at
  {
  }

  // ----- connecting -----

  /**
   * The worker connects. If a start has been asked for before it is done, that stands; otherwise it is
   * connected exactly if connecting succeeded, and the result is noted unless it was interrupted.
   */
  lemma ConnectEnds(events: seq<Event>, more: seq<Event>, result: Error)
    requires After(events).Some? && After(events).value.at == InConnect && After(events).value.cur == Connecting
    requires forall e :: e in more ==> !WorkerEvent(e)
    ensures After(events + more).Some? && After(events + more + [ConnectReturns(result)]).Some?
    ensures var before, after := After(events + more).value, After(events + more + [ConnectReturns(result)]).value;
            if Ask(StartClient) in more then after.cur == Start && after.err == before.err
            else
              && (result == NoError ==> after.cur == Connected && after.err == NoError)
              && (result == Interrupted ==> after.cur == Connecting && after.err == before.err)
              && (result != NoError && result != Interrupted ==> after.cur == Connecting && after.err == result)
  {
    hide After;
    var t, u := ThenWorker(events, more, ConnectReturns(result));
  }

  /** From the dispatch on: connecting that succeeds leaves the worker connected, unless a start has been asked for meanwhile. */
  lemma ConnectSucceeds(before: seq<Event>, more: seq<Event>, later: seq<Event>)
    requires After(before).Some? && After(before).value.at == LoopHead && After(before).value.cur == Connecting
    requires (forall e :: e in more ==> !WorkerEvent(e)) && (forall e :: e in later ==> !WorkerEvent(e))
    requires Ask(StartClient) !in more
    ensures var run := before + [Dispatch] + more + [EnterHandler] + later + [ConnectReturns(NoError)];
            After(run).Some? && (After(run).value.cur == Connected <==> Ask(StartClient) !in later)
  {
    hide After;
    var s := Follow(before, Dispatch);
    var t, u := ThenWorker(before + [Dispatch], more, EnterHandler);
    ConnectEnds(before + [Dispatch] + more + [EnterHandler], later, NoError);
  }

  /**
   * While the worker takes itself to be connected, or has a command to send or under way, it has connected,
   * at `c`, and not tried to again since; and each disconnect read since has come when a request had
   * already been made, so that it was not noticed.
   */
  lemma {:induction false} ConnectedSince(events: seq<Event>) returns (c: nat)
    requires After(events).Some?
    requires After(events).value.cur in {Connected, Stop, Stopping, Restart, Restarting, Sync, Syncing, Reload, Reloading}
    ensures c < |events| && events[c] == ConnectReturns(NoError)
    ensures forall d :: c < d < |events| ==> !events[d].ConnectReturns?
    ensures forall d :: c < d < |events| && events[d] == ReadReturns(Disconnected) ==>
              After(events[..d]).Some? && After(events[..d]).value.cur !in {Connected, Restarting}
    decreases |events|
  {
    NotAtFirst();
    var most, last := events[..|events| - 1], events[|events| - 1];
    var s := After(most).value;
    InvariantHolds(most);
    ConnectedStep(s, last);
    hide After;
    if s.cur in {Connected, Stop, Stopping, Restart, Restarting, Sync, Syncing, Reload, Reloading} {
      c := ConnectedSince(most);
      forall d | c < d < |events|
        ensures events[..d] == if d < |most| then most[..d] else most
      {
      }
      assert forall d :: c < d < |most| ==> events[d] == most[d];
    } else {
      c := |most|;
    }
  }

  lemma NotAtFirst()
    ensures After([]) == Some(Initial) && Initial.cur == Connecting
  {
  }

  lemma ConnectedStep(s: State, e: Event)
    requires Consistent(s) && Enabled(s, e)
    requires Apply(s, e).cur in {Connected, Stop, Stopping, Restart, Restarting, Sync, Syncing, Reload, Reloading}
    ensures s.cur in {Connected, Stop, Stopping, Restart, Restarting, Sync, Syncing, Reload, Reloading} ==>
              !e.ConnectReturns? && (e == ReadReturns(Disconnected) ==> s.cur !in {Connected, Restarting})
    ensures s.cur !in {Connected, Stop, Stopping, Restart, Restarting, Sync, Syncing, Reload, Reloading} ==> e == ConnectReturns(NoError)
  {
    hide Tallies.With, Tallies.Of;
  }

  /** A stop is asked for while the worker reads, and the disconnect that it then reads is not noticed. */
  lemma DisconnectIsMissed() returns (events: seq<Event>)
    ensures After(events).Some? && events != [] && events[|events| - 1] == ReadReturns(Disconnected)
    ensures After(events).value.cur == Stop && After(events).value.err == Interrupted
  {
    hide After;
    events := ConnectedAtHead();
    var s := Follow(events, Dispatch);
    events := events + [Dispatch];
    s := Follow(events, EnterHandler);
    events := events + [EnterHandler];
    s := Follow(events, Ask(StopClient));
    events := events + [Ask(StopClient)];
    s := Follow(events, ReadReturns(Disconnected));
    events := events + [ReadReturns(Disconnected)];
  }

  // ----- reading a status line -----

  /**
   * Reading while connected. If a command has been asked for meanwhile, that stands, and the result is
   * noted as interrupted; otherwise the worker connects anew exactly after a disconnect. A timeout is no error.
   */
  lemma ReadEnds(events: seq<Event>, more: seq<Event>, result: Error)
    requires After(events).Some? && After(events).value.at == InRead && After(events).value.cur == Connected
    requires forall e :: e in more ==> !WorkerEvent(e)
    ensures After(events + more + [ReadReturns(result)]).Some?
    ensures var after := After(events + more + [ReadReturns(result)]).value;
            if forall r :: r != StartClient ==> Ask(r) !in more then
              && after.cur == (if result == Disconnected then Connecting else Connected)
              && after.err == (if result == ReadTimeout then NoError else result)
            else after.cur in {Stop, Restart, Sync, Reload} && after.err == Interrupted
  {
    hide After;
    var t, u := ThenWorker(events, more, ReadReturns(result));
  }

  /** Reading in a restart: a disconnect is what it waits for, and the daemon is started again; so it is when the process has terminated. */
  lemma ReadEndsInRestart(events: seq<Event>, more: seq<Event>, result: Error)
    requires After(events).Some? && After(events).value.at == InRead && After(events).value.cur == Restarting
    requires forall e :: e in more ==> !WorkerEvent(e)
    ensures After(events + more + [ReadReturns(result)]).Some?
    ensures var after := After(events + more + [ReadReturns(result)]).value;
            if exists status :: ProcessTerminates(status) in more then after.cur == Start && after.err == Interrupted
            else
              && after.cur == (if result == Disconnected then Start else Restarting)
              && after.err == (if result == ReadTimeout || result == Disconnected then NoError else result)
  {
    hide After;
    var t, u := ThenWorker(events, more, ReadReturns(result));
  }

  // ----- launching, and commands -----

  /** Nothing comes in between: after a launch, failed or not, the worker connects, and the result is noted. */
  lemma LaunchEnds(events: seq<Event>, more: seq<Event>, result: Error)
    requires After(events).Some? && After(events).value.at == Dispatched(Start)
    requires forall e :: e in more ==> !WorkerEvent(e)
    ensures After(events + [EnterHandler] + more + [LaunchReturns(result)]).Some?
    ensures After(events + [EnterHandler] + more).value.cur == Starting
    ensures After(events + [EnterHandler] + more).value.launches == After(events).value.launches + 1
    ensures var after := After(events + [EnterHandler] + more + [LaunchReturns(result)]).value;
            after.cur == Connecting && after.err == result
  {
    InvariantHolds(events);
    hide After;
    var s := Follow(events, EnterHandler);
    var t, u := ThenWorker(events + [EnterHandler], more, LaunchReturns(result));
  }

  /** A command request that the dispatcher has found is marked as under way, and its line goes out. */
  lemma CommandGoesOut(events: seq<Event>, r: Request, more: seq<Event>)
    requires After(events).Some? && r != StartClient && After(events).value.at == Dispatched(Pending(r))
    requires forall e :: e in more ==> !WorkerEvent(e)
    ensures After(events + [EnterHandler] + more + [CommandWritten]).Some?
    ensures var before, after := After(events).value, After(events + [EnterHandler] + more + [CommandWritten]).value;
            && after.at == Sent(r)
            && (r == StopClient ==> after.cur == Stopping && after.wire == before.wire + [Terminate])
            && (r == SyncClient ==> after.cur == Syncing && after.wire == before.wire + [ForceSync])
            && (r == ReloadClient ==> after.cur == Reloading && after.wire == before.wire + [ReloadConfig])
            && (r == RestartClient ==>
                  after.cur == (if exists status :: ProcessTerminates(status) in more then Start else Restarting) &&
                  after.wire == before.wire + [Terminate])
  {
    InvariantHolds(events);
    hide After, Tallies.With, Tallies.Of;
    var s := Follow(events, EnterHandler);
    var t, u := ThenWorker(events + [EnterHandler], more, CommandWritten);
  }

  /** Once it is out, the worker is connected again, or goes on with the restart, and no error is left. */
  lemma CommandEnds(events: seq<Event>, r: Request, more: seq<Event>)
    requires After(events).Some? && After(events).value.at == Sent(r)
    requires forall e :: e in more ==> !WorkerEvent(e)
    ensures After(events + more + [FinishCommand]).Some?
    ensures var before, after := After(events).value, After(events + more + [FinishCommand]).value;
            && after.err == NoError && after.wire == before.wire
            && (r != RestartClient ==> after.cur == Connected)
            && (r == RestartClient && before.cur == Restarting ==>
                  after.cur == if exists status :: ProcessTerminates(status) in more then Start else Restarting)
  {
    InvariantHolds(events);
    hide After;
    var t, u := ThenWorker(events, more, FinishCommand);
  }

  /** In a handler for reading, the worker reads if nothing has come in between. */
  lemma ReadBegins(events: seq<Event>, more: seq<Event>)
    requires After(events).Some? && After(events).value.at == LoopHead && After(events).value.cur in {Connected, Restarting}
    requires forall e :: e in more ==> !WorkerEvent(e)
    ensures After(events + [Dispatch] + more + [EnterHandler]).Some?
    ensures var before, after := After(events + [Dispatch] + more).value, After(events + [Dispatch] + more + [EnterHandler]).value;
            after.cur == before.cur && (after.at == InRead <==> before.cur in {Connected, Restarting})
  {
    hide After;
    var s := Follow(events, Dispatch);
    var t, u := ThenWorker(events + [Dispatch], more, EnterHandler);
  }

  // ----- the account of the requests -----

  /** What each step adds to the account: requests accepted, commands written and thrown, requests dropped when the worker is destroyed. */
  lemma TalliesExactly(events: seq<Event>, e: Event, q: Request)
    requires After(events).Some? && Enabled(After(events).value, e)
    ensures After(events + [e]).Some?
    ensures var s, t := After(events).value, After(events + [e]).value;
            var was, now := s.tally.Of(q), t.tally.Of(q);
            && now.accepted == was.accepted + (if e == Ask(q) && s.cur == AskedIn(q) then 1 else 0)
            && now.written == was.written + (if e == CommandWritten && s.at == Sending(q) then 1 else 0)
            && now.thrown == was.thrown + (if e == CommandThrows && s.at == Sending(q) then 1 else 0)
            && now.dropped == was.dropped + (if e == EndOfLoop(true) && s.cur == Pending(q) then 1 else 0)
            && t.launches == s.launches + (if e == EnterHandler && s.at == Dispatched(Start) then 1 else 0)
            && t.startsAfterRestart == s.startsAfterRestart + (if s.cur == Restarting && t.cur == Start then 1 else 0)
  {
    InvariantHolds(events);
    hide After, Apply;
    var t := Follow(events, e);
    TallyStep(After(events).value, e, q);
  }

  lemma TallyStep(s: State, e: Event, q: Request)
    requires Consistent(s) && Enabled(s, e)
    ensures var t := Apply(s, e);
            var was, now := s.tally.Of(q), t.tally.Of(q);
            && now.accepted == was.accepted + (if e == Ask(q) && s.cur == AskedIn(q) then 1 else 0)
            && now.written == was.written + (if e == CommandWritten && s.at == Sending(q) then 1 else 0)
            && now.thrown == was.thrown + (if e == CommandThrows && s.at == Sending(q) then 1 else 0)
            && now.dropped == was.dropped + (if e == EndOfLoop(true) && s.cur == Pending(q) then 1 else 0)
            && t.launches == s.launches + (if e == EnterHandler && s.at == Dispatched(Start) then 1 else 0)
            && t.startsAfterRestart == s.startsAfterRestart + (if s.cur == Restarting && t.cur == Start then 1 else 0)
  {
  }

  /** A request that waits has led to its command, or a start to a launch, when the worker has made six steps and has not been destroyed. */
  lemma AnsweredAfterSixSteps(events: seq<Event>, more: seq<Event>, r: Request)
    requires After(events + more).Some? && After(events).Some? && EndOfLoop(true) !in more && WorkerSteps(more) >= 6
    requires After(events).value.cur == match r
                                        case StartClient => Start
                                        case StopClient => Stop
                                        case RestartClient => Restart
                                        case SyncClient => Sync
                                        case ReloadClient => Reload
    ensures var s, t := After(events).value, After(events + more).value;
            if r == StartClient then t.launches > s.launches
            else t.tally.Of(r).written + t.tally.Of(r).thrown > s.tally.Of(r).written + s.tally.Of(r).thrown
  {
    ServedWithinSixSteps(events, more, r);
  }

  // ----- single steps -----

  /** What reading the state at the head of the loop does: it forgets the last error, and ends the worker only on shutdown. */
  lemma DispatchForgets(events: seq<Event>)
    requires After(events).Some? && After(events).value.at == LoopHead
    ensures After(events + [Dispatch]).Some? && After(events + [Dispatch]).value.cur == After(events).value.cur
    ensures var s, t := After(events).value, After(events + [Dispatch]).value;
            if s.cur == Shutdown then t.at == Ended else t.at == Dispatched(s.cur) && t.err == NoError
  {
    hide After;
    var s := Follow(events, Dispatch);
  }
}
