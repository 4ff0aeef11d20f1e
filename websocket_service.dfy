/** The process-wide registry of live WebSocket sessions and its broadcast
    fan-out (services/WebSocketService.java). */
module Registry {

  /** The identity of one transport session; Spring's sessions compare by
      identity, so one id stands for one session object. */
  type SessionId = nat

  /** What the transport reports at the moment of a broadcast: which sessions
      answer `isOpen()` with true, and which would throw from `sendMessage`. */
  datatype Transport = Transport(open: set<SessionId>, failing: set<SessionId>)

  /** One call of `sendMessage` on a session, and whether it returned normally. */
  datatype SendAttempt = SendAttempt(session: SessionId, text: string, delivered: bool)

  /** The sessions a batch of attempts was addressed to. */
  function Targets(batch: seq<SendAttempt>): set<SessionId>
  {
    set i | 0 <= i < |batch| :: batch[i].session
  }

  /** The sessions a batch of attempts actually reached. */
  function Reached(batch: seq<SendAttempt>): set<SessionId>
  {
    set i | 0 <= i < |batch| && batch[i].delivered :: batch[i].session
  }

  /** No session is attempted twice in one batch. */
  predicate Distinct(batch: seq<SendAttempt>)
  {
    forall i, j | 0 <= i < j < |batch| :: batch[i].session != batch[j].session
  }

  /** `batch` is what one `sendMessageToAll(message)` produces on a registry
      holding `sessions` while the transport is in state `t`: the message,
      unchanged, is tried once on every registered open session and on
      nothing else, and each try succeeds unless that session's send fails. */
  ghost predicate IsBroadcast(batch: seq<SendAttempt>, sessions: set<SessionId>, t: Transport, message: string)
  {
    && (forall i | 0 <= i < |batch| ::
          batch[i].text == message && batch[i].delivered == (batch[i].session !in t.failing))
    && Distinct(batch)
    && Targets(batch) == sessions * t.open
  }

  /** Appending one attempt adds exactly its session to the targets. */
  lemma TargetsSnoc(batch: seq<SendAttempt>, a: SendAttempt)
    ensures Targets(batch + [a]) == Targets(batch) + {a.session}
  {
    var longer := batch + [a];
    forall s | s in Targets(longer) ensures s in Targets(batch) + {a.session} {
      var i :| 0 <= i < |longer| && longer[i].session == s;
      if i < |batch| { assert longer[i] == batch[i]; }
    }
    forall s | s in Targets(batch) ensures s in Targets(longer) {
      var i :| 0 <= i < |batch| && batch[i].session == s;
      assert longer[i] == batch[i];
    }
    assert longer[|batch|] == a;
  }

  /** A batch with distinct sessions has exactly as many attempts as targets. */
  lemma {:induction false} DistinctTargetsSize(batch: seq<SendAttempt>)
    requires Distinct(batch)
    ensures |Targets(batch)| == |batch|
  {
    if batch != [] {
      var init := batch[..|batch| - 1];
      var last := batch[|batch| - 1];
      assert batch == init + [last];
      assert Distinct(init);
      DistinctTargetsSize(init);
      TargetsSnoc(init, last);
      forall i | 0 <= i < |init| ensures init[i].session != last.session {
        assert init[i] == batch[i];
      }
    }
  }

  /** One broadcast makes exactly one attempt per registered open session:
      no session is skipped and none is tried twice. */
  lemma BroadcastAttemptsEachOpenSessionOnce(batch: seq<SendAttempt>, sessions: set<SessionId>, t: Transport, message: string)
    requires IsBroadcast(batch, sessions, t, message)
    ensures |batch| == |sessions * t.open|
  {
    DistinctTargetsSize(batch);
  }

  /** Failure isolation: a session whose send throws costs only its own
      delivery; every other registered open session is still reached. */
  lemma BroadcastReachesAllButFailing(batch: seq<SendAttempt>, sessions: set<SessionId>, t: Transport, message: string)
    requires IsBroadcast(batch, sessions, t, message)
    ensures Reached(batch) == sessions * t.open - t.failing
  {
  }

  /** A session that is not registered, or that reports itself closed, is
      never tried, and every try carries the broadcast text unchanged. */
  lemma BroadcastSkipsClosedAndUnregistered(batch: seq<SendAttempt>, sessions: set<SessionId>, t: Transport, message: string, s: SessionId)
    requires IsBroadcast(batch, sessions, t, message)
    requires s !in sessions || s !in t.open
    ensures forall i | 0 <= i < |batch| :: batch[i].session != s && batch[i].text == message
  {
    forall i | 0 <= i < |batch| ensures batch[i].session != s {
      assert batch[i].session in Targets(batch);
    }
  }

  /** Registry {A, B, C} with B closed: a broadcast reaches A and C only,
      and B's closed state costs nothing else. */
  lemma MixedOpenBroadcast(batch: seq<SendAttempt>, message: string)
    requires IsBroadcast(batch, {0, 1, 2}, Transport({0, 2}, {}), message)
    ensures Reached(batch) == {0, 2}
    ensures |batch| == 2
  {
    var t := Transport({0, 2}, {});
    assert {0, 1, 2} * t.open == {0, 2};
    BroadcastReachesAllButFailing(batch, {0, 1, 2}, t, message);
    BroadcastAttemptsEachOpenSessionOnce(batch, {0, 1, 2}, t, message);
  }

  class WebSocketService {
    /** The registered sessions; a set, so a session is never held twice. */
    var sessions: set<SessionId>
    /** Every send attempt made so far, oldest first. */
    var outbox: seq<SendAttempt>

    constructor ()
      ensures sessions == {} && outbox == []
    {
      sessions := {};
      outbox := [];
    }

    /** Registers `session`; registering it again changes nothing. */
    method AddSession(session: SessionId)
      modifies this`sessions
      ensures sessions == old(sessions) + {session}
      ensures session in sessions
      ensures old(session in sessions) ==> sessions == old(sessions)
    {
      sessions := sessions + {session};
    }

    /** Unregisters `session`; an absent session is a no-op, never an error. */
    method RemoveSession(session: SessionId)
      modifies this`sessions
      ensures sessions == old(sessions) - {session}
      ensures session !in sessions
      ensures old(session !in sessions) ==> sessions == old(sessions)
    {
      sessions := sessions - {session};
    }

    /** Sends `message` to every registered session that reports itself open.
        A failing send is caught and the loop goes on with the next session;
        the call itself never fails and leaves the registry as it was. */
    method SendMessageToAll(message: string, t: Transport)
      modifies this`outbox
      ensures sessions == old(sessions)
      ensures |outbox| >= |old(outbox)| && outbox[..|old(outbox)|] == old(outbox)
      ensures IsBroadcast(outbox[|old(outbox)|..], sessions, t, message)
    {
      var remaining := sessions;
      var batch: seq<SendAttempt> := [];
      while remaining != {}
        invariant remaining <= sessions
        invariant outbox == old(outbox) + batch
        invariant forall i | 0 <= i < |batch| ::
          batch[i].text == message && batch[i].delivered == (batch[i].session !in t.failing)
        invariant Distinct(batch)
        invariant Targets(batch) == (sessions - remaining) * t.open
        decreases remaining
      {
        var session :| session in remaining;
        if session in t.open {
          // a send that throws is caught and logged; the loop goes on
          var attempt := SendAttempt(session, message, session !in t.failing);
          TargetsSnoc(batch, attempt);
          batch := batch + [attempt];
          outbox := outbox + [attempt];
        }
        remaining := remaining - {session};
      }
      assert outbox[|old(outbox)|..] == batch;
    }
  }
}
