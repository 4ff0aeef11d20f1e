/** Binds the transport's connect / text-message / close events to the
    session registry (configuration/CustomWebSocketHandler.java). */
module Handler {
  import opened Common
  import opened Registry

  /** A transport event delivered to the handler. */
  datatype Event =
    | Established(session: SessionId)
    | TextMessage(session: SessionId, payload: string)
    | Closed(session: SessionId)

  /** The registry after the handler has processed one event. */
  function Step(sessions: set<SessionId>, e: Event): set<SessionId>
  {
    match e
    case Established(s) => sessions + {s}
    case TextMessage(_, _) => sessions
    case Closed(s) => sessions - {s}
  }

  /** The registry after the handler has processed `events` in order,
      whatever interleaving of connections produced that order. */
  function Replay(sessions: set<SessionId>, events: seq<Event>): set<SessionId>
    decreases |events|
  {
    if events == [] then sessions
    else Step(Replay(sessions, events[..|events| - 1]), events[|events| - 1])
  }

  /** The last connect or close event about `s` in `events`, if there is one. */
  function LastLifecycleEvent(events: seq<Event>, s: SessionId): Option<Event>
    decreases |events|
  {
    if events == [] then None
    else
      var e := events[|events| - 1];
      if !e.TextMessage? && e.session == s then Some(e)
      else LastLifecycleEvent(events[..|events| - 1], s)
  }

  /** Last operation wins: after any sequence of events, a session is
      registered exactly when its last connect/close event was a connect, or
      it had no such event and was registered to begin with. No session
      appears that was never connected, and none survives its close. */
  lemma {:induction false} ReplayLastOperationWins(init: set<SessionId>, events: seq<Event>, s: SessionId)
    ensures s in Replay(init, events) <==>
      (LastLifecycleEvent(events, s) == Some(Established(s))
       || (LastLifecycleEvent(events, s) == None && s in init))
    decreases |events|
  {
    if events != [] {
      ReplayLastOperationWins(init, events[..|events| - 1], s);
    }
  }

  /** Closing a session twice leaves the registry as closing it once does. */
  lemma CloseIsIdempotent(sessions: set<SessionId>, s: SessionId)
    ensures Step(Step(sessions, Closed(s)), Closed(s)) == Step(sessions, Closed(s))
    ensures s !in Step(sessions, Closed(s))
  {
  }

  /** The connect and close events of `events`, in order. */
  function Lifecycle(events: seq<Event>): (r: seq<Event>)
    ensures |r| <= |events|
    ensures forall i | 0 <= i < |r| :: !r[i].TextMessage?
    decreases |events|
  {
    if events == [] then []
    else
      var rest := Lifecycle(events[..|events| - 1]);
      var last := events[|events| - 1];
      if last.TextMessage? then rest else rest + [last]
  }

  /** Text messages never register or unregister anybody: dropping them from
      an event sequence does not change the resulting registry. */
  lemma {:induction false} MessagesDoNotChangeRegistry(init: set<SessionId>, events: seq<Event>)
    ensures Replay(init, events) == Replay(init, Lifecycle(events))
    decreases |events|
  {
    if events != [] {
      var prefix := events[..|events| - 1];
      MessagesDoNotChangeRegistry(init, prefix);
      var kept := Lifecycle(events);
      if !events[|events| - 1].TextMessage? {
        assert kept[..|kept| - 1] == Lifecycle(prefix);
      }
    }
  }

  /** Full-mesh echo: when X sends "hello" while X, Y and Z are registered
      and open, all three, X included, receive it. */
  lemma EchoReachesSender(batch: seq<SendAttempt>)
    requires IsBroadcast(batch, {0, 1, 2}, Transport({0, 1, 2}, {}), "hello")
    ensures Reached(batch) == {0, 1, 2}
    ensures forall i | 0 <= i < |batch| :: batch[i].text == "hello"
  {
    BroadcastReachesAllButFailing(batch, {0, 1, 2}, Transport({0, 1, 2}, {}), "hello");
  }

  class CustomWebSocketHandler {
    const webSocketService: WebSocketService

    constructor (webSocketService: WebSocketService)
      ensures this.webSocketService == webSocketService
    {
      this.webSocketService := webSocketService;
    }

    /** A newly connected session is registered. */
    method AfterConnectionEstablished(session: SessionId)
      modifies webSocketService`sessions
      ensures webSocketService.sessions == Step(old(webSocketService.sessions), Established(session))
      ensures session in webSocketService.sessions
    {
      webSocketService.AddSession(session);
    }

    /** An inbound text is echoed, unchanged, to every registered open
        session, the sender included; the registry is not touched. */
    method HandleTextMessage(session: SessionId, message: string, t: Transport)
      modifies webSocketService`outbox
      ensures webSocketService.sessions == Step(old(webSocketService.sessions), TextMessage(session, message))
      ensures |webSocketService.outbox| >= |old(webSocketService.outbox)|
      ensures webSocketService.outbox[..|old(webSocketService.outbox)|] == old(webSocketService.outbox)
      ensures IsBroadcast(webSocketService.outbox[|old(webSocketService.outbox)|..],
                          webSocketService.sessions, t, message)
      ensures session in webSocketService.sessions && session in t.open ==>
              exists i | |old(webSocketService.outbox)| <= i < |webSocketService.outbox| ::
                webSocketService.outbox[i] == SendAttempt(session, message, session !in t.failing)
    {
      webSocketService.SendMessageToAll(message, t);
      ghost var batch := webSocketService.outbox[|old(webSocketService.outbox)|..];
      if session in webSocketService.sessions && session in t.open {
        assert session in Targets(batch);
        ghost var i :| 0 <= i < |batch| && batch[i].session == session;
        assert webSocketService.outbox[|old(webSocketService.outbox)| + i] == batch[i];
      }
    }

    /** A closed session is unregistered; closing an absent session is harmless. */
    method AfterConnectionClosed(session: SessionId)
      modifies webSocketService`sessions
      ensures webSocketService.sessions == Step(old(webSocketService.sessions), Closed(session))
      ensures session !in webSocketService.sessions
    {
      webSocketService.RemoveSession(session);
    }
  }
}
