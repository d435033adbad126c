/**
 * A subscriber's session: join the room with a fresh channel, then react
 * to whichever event comes first (a message on the channel, the client
 * going away, the ticker), and on leaving the loop send exactly one leave
 * for the same room and channel.
 */
module Sessions {
  import opened EventStream
  import opened Membership
  import opened Coordinator

  /** What the session's select can wake up on. */
  datatype Event =
    | Incoming(msg: Message)  // a message arrives on the session's channel
    | ClientClosed            // the close notifier fires
    | Tick                    // the ticker fires

  /** The frames written so far, and whether the loop is still running. */
  datatype Session = Session(written: seq<Message>, open: bool)

  function Start(): Session
  {
    Session([], true)
  }

  /** One turn of the select loop; once the loop is left, nothing more happens. */
  function Step(s: Session, e: Event): (r: Session)
    ensures !s.open ==> r == s
    ensures s.written <= r.written && |r.written| <= |s.written| + 1
    ensures r.open ==> e.Incoming?
  {
    if !s.open then s
    else
      match e
      case Incoming(m) => Session(s.written + [m], true)
      case ClientClosed => Session(s.written, false)
      case Tick => Session(s.written + [TimeoutMessage()], false)
  }

  /** The session after the events, in order. */
  function Replay(s: Session, events: seq<Event>): (r: Session)
    ensures |s.written| <= |r.written| <= |s.written| + |events|
    ensures r.open ==> s.open
    decreases |events|
  {
    if |events| == 0 then s else Replay(Step(s, events[0]), events[1..])
  }

  /** Frames once written stay written: a replay only ever extends what the session has written. */
  lemma {:induction false} ReplayExtends(s: Session, events: seq<Event>)
    ensures s.written <= Replay(s, events).written
    decreases |events|
  {
    if |events| > 0 {
      ReplayExtends(Step(s, events[0]), events[1..]);
    }
  }

  /** The payloads of a run of incoming messages. */
  function Payloads(events: seq<Event>): (ms: seq<Message>)
    requires forall k :: 0 <= k < |events| ==> events[k].Incoming?
    ensures |ms| == |events|
    ensures forall k :: 0 <= k < |events| ==> ms[k] == events[k].msg
  {
    if |events| == 0 then [] else [events[0].msg] + Payloads(events[1..])
  }

  /** A session that has left its loop ignores every later event. */
  lemma {:induction false} LeftStaysLeft(s: Session, events: seq<Event>)
    requires !s.open
    ensures Replay(s, events) == s
    decreases |events|
  {
    if |events| > 0 {
      LeftStaysLeft(s, events[1..]);
    }
  }

  lemma {:induction false} ReplayAppend(s: Session, a: seq<Event>, b: seq<Event>)
    ensures Replay(s, a + b) == Replay(Replay(s, a), b)
    decreases |a|
  {
    if |a| > 0 {
      assert (a + b)[0] == a[0];
      assert (a + b)[1..] == a[1..] + b;
      ReplayAppend(Step(s, a[0]), a[1..], b);
    } else {
      assert a + b == b;
    }
  }

  /** Incoming messages are each written once, in arrival order, and the loop goes on. */
  lemma {:induction false} ReplayIncoming(s: Session, events: seq<Event>)
    requires s.open
    requires forall k :: 0 <= k < |events| ==> events[k].Incoming?
    ensures Replay(s, events) == Session(s.written + Payloads(events), true)
    decreases |events|
  {
    if |events| > 0 {
      var m, rest := events[0].msg, events[1..];
      assert Step(s, events[0]) == Session(s.written + [m], true);
      assert Payloads(events) == [m] + Payloads(rest);
      ReplayIncoming(Session(s.written + [m], true), rest);
      assert s.written + [m] + Payloads(rest) == s.written + Payloads(events);
    }
  }

  /**
   * The loop ends at the first close notification or tick: a close writes
   * nothing more, a tick writes exactly one timeout frame; everything after
   * is ignored.
   */
  lemma SessionEnds(pre: seq<Event>, e: Event, post: seq<Event>)
    requires forall k :: 0 <= k < |pre| ==> pre[k].Incoming?
    requires !e.Incoming?
    ensures Replay(Start(), pre + [e] + post)
         == Session(Payloads(pre) + (if e.Tick? then [TimeoutMessage()] else []), false)
  {
    ReplayAppend(Start(), pre + [e], post);
    ReplayAppend(Start(), pre, [e]);
    ReplayIncoming(Start(), pre);
    assert Start().written + Payloads(pre) == Payloads(pre);
    LeftStaysLeft(Replay(Start(), pre + [e]), post);
  }

  /** While only messages arrive, the loop keeps running and writes each of them. */
  lemma SessionContinues(events: seq<Event>)
    requires forall k :: 0 <= k < |events| ==> events[k].Incoming?
    ensures Replay(Start(), events) == Session(Payloads(events), true)
  {
    ReplayIncoming(Start(), events);
    assert Start().written + Payloads(events) == Payloads(events);
  }

  /**
   * The stream handler of a subscriber: join, run the select loop over the
   * events, and on leaving the loop run the deferred leave once. The
   * requests the session hands to the coordinator come back in reqs. When
   * the events run out with the loop still waiting, the session is still
   * joined and no leave has been sent.
   */
  method Serve(b: Broker, room: string, ch: Chan, events: seq<Event>)
    returns (out: string, exited: bool, reqs: seq<Request>)
    requires b.Valid() && Unused(b.Snapshot(), ch)
    modifies b`rooms, b`closed
    ensures b.Valid()
    ensures exited == !Replay(Start(), events).open
    ensures out == Stream(Replay(Start(), events).written)
    ensures reqs == [Join(room, ch)] + (if exited then [Leave(room, ch)] else [])
    ensures b.Snapshot() == Steps(old(b.Snapshot()), reqs)
    ensures b.Snapshot() == if exited
                            then Next(Next(old(b.Snapshot()), Join(room, ch)), Leave(room, ch))
                            else Next(old(b.Snapshot()), Join(room, ch))
    ensures exited ==> (b.rooms == old(b.rooms)[room := Members(old(b.rooms), room)]
                        && b.closed == old(b.closed) + [ch])
    ensures !exited ==> Members(b.rooms, room) == Members(old(b.rooms), room) + [ch]
  {
    ghost var s0 := b.Snapshot();
    b.Join(room, ch);
    reqs := [Join(room, ch)];
    ghost var joined := b.Snapshot();
    out := "";
    exited := false;
    ghost var written: seq<Message> := [];
    var i := 0;
    while i < |events| && !exited
      invariant 0 <= i <= |events|
      invariant Replay(Session(written, !exited), events[i..]) == Replay(Start(), events)
      invariant out == Stream(written)
      invariant b.Snapshot() == joined
      decreases |events| - i
    {
      assert events[i..][0] == events[i] && events[i..][1..] == events[i + 1..];
      assert Replay(Session(written, true), events[i..])
          == Replay(Step(Session(written, true), events[i]), events[i + 1..]);
      match events[i] {
        case Incoming(m) =>
          StreamSnoc(written, m);
          out := out + Encode(m);
          written := written + [m];
        case ClientClosed =>
          exited := true;
        case Tick =>
          StreamSnoc(written, TimeoutMessage());
          out := out + Encode(TimeoutMessage());
          written := written + [TimeoutMessage()];
          exited := true;
      }
      i := i + 1;
    }
    if exited {
      LeftStaysLeft(Session(written, false), events[i..]);
    } else {
      assert events[i..] == [];
    }
    assert Steps(s0, reqs) == joined by {
      assert reqs[..0] == [];
    }
    if exited {
      b.Leave(room, ch);
      JoinThenLeave(s0, room, ch);
      reqs := reqs + [Leave(room, ch)];
      assert reqs[..1] == [Join(room, ch)];
    }
  }
}
