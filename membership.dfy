/**
 * The broker's room membership as values: the map from room name to the
 * ordered list of subscriber channels, the three requests the broker
 * applies one at a time (join, leave, publish), and what holds over any
 * run of them.
 */
module Membership {
  import opened Wrappers
  import opened EventStream

  /** A subscriber channel, compared by identity only. */
  type Chan = nat

  /** Room name to the room's subscriber channels, in join order. */
  type Rooms = map<string, seq<Chan>>

  predicate Distinct(s: seq<Chan>)
  {
    forall i, j :: 0 <= i < j < |s| ==> s[i] != s[j]
  }

  /** The room's list, or the empty list (Go's nil slice) for an absent room. */
  function Members(rooms: Rooms, room: string): seq<Chan>
  {
    if room in rooms then rooms[room] else []
  }

  // ---------------------------------------------------------------------
  // Join
  // ---------------------------------------------------------------------

  /** A join appends the channel to the room's list, creating the list when the room is absent. */
  function JoinRooms(rooms: Rooms, room: string, ch: Chan): (r: Rooms)
    ensures r.Keys == rooms.Keys + {room}
    ensures r[room] == Members(rooms, room) + [ch]
    ensures forall other :: other in rooms && other != room ==> r[other] == rooms[other]
  {
    if room in rooms then rooms[room := rooms[room] + [ch]]
    else
      var roomChannels: seq<Chan> := [];
      rooms[room := roomChannels + [ch]]
  }

  // ---------------------------------------------------------------------
  // Leave
  // ---------------------------------------------------------------------

  /** Position of the first occurrence of x in s. */
  function IndexOf(s: seq<Chan>, x: Chan): (k: nat)
    requires x in s
    ensures k < |s| && s[k] == x && x !in s[..k]
    ensures forall j :: 0 <= j < k ==> s[j] != x
  {
    if s[0] == x then 0
    else
      var k := 1 + IndexOf(s[1..], x);
      assert s[..k] == [s[0]] + s[1..][..k - 1];
      k
  }

  /** s with its first occurrence of x taken out (s itself when x is absent). */
  function Remove(s: seq<Chan>, x: Chan): (r: seq<Chan>)
    ensures |r| == if x in s then |s| - 1 else |s|
  {
    if |s| == 0 then []
    else if s[0] == x then s[1..]
    else
      assert x in s <==> x in s[1..];
      [s[0]] + Remove(s[1..], x)
  }

  /** Removal takes out one copy of x, when there is one, and nothing else. */
  lemma {:induction false} RemoveMultiset(s: seq<Chan>, x: Chan)
    ensures multiset(Remove(s, x)) == multiset(s) - multiset{x}
  {
    if |s| > 0 {
      assert s == [s[0]] + s[1..];
      if s[0] != x {
        RemoveMultiset(s[1..], x);
      }
    }
  }

  /** Removal is the splice s[..k] + s[k+1..] at the first match: the other channels keep their order. */
  lemma {:induction false} RemoveSplice(s: seq<Chan>, x: Chan)
    requires x in s
    ensures Remove(s, x) == s[..IndexOf(s, x)] + s[IndexOf(s, x) + 1..]
  {
    if s[0] != x {
      var t := s[1..];
      RemoveSplice(t, x);
      var k := IndexOf(s, x);
      assert k == 1 + IndexOf(t, x);
      assert Remove(s, x) == [s[0]] + Remove(t, x);
      assert Remove(t, x) == t[..k - 1] + t[k..];
      assert s[..k] == [s[0]] + t[..k - 1];
      assert s[k + 1..] == t[k..];
    }
  }

  /** Removing from a list without repeats removes the channel altogether and keeps the list free of repeats. */
  lemma {:induction false} RemoveDistinct(s: seq<Chan>, x: Chan)
    requires Distinct(s)
    ensures Distinct(Remove(s, x))
    ensures x !in Remove(s, x)
  {
    if |s| > 0 {
      var t := s[1..];
      assert Distinct(t) by {
        forall i, j | 0 <= i < j < |t| ensures t[i] != t[j] {
          assert t[i] == s[i + 1] && t[j] == s[j + 1];
        }
      }
      assert s[0] !in t by {
        forall i | 0 <= i < |t| ensures t[i] != s[0] {
          assert t[i] == s[i + 1];
        }
      }
      if s[0] != x {
        RemoveDistinct(t, x);
        RemoveShrinks(t, x, s[0]);
        DistinctCons(s[0], Remove(t, x));
      }
    }
  }

  lemma DistinctCons(a: Chan, r: seq<Chan>)
    requires Distinct(r) && a !in r
    ensures Distinct([a] + r)
  {
    var s := [a] + r;
    forall i, j | 0 <= i < j < |s| ensures s[i] != s[j] {
      assert s[j] == r[j - 1];
      if i > 0 { assert s[i] == r[i - 1]; }
    }
  }

  /** Removing an absent channel changes nothing. */
  lemma {:induction false} RemoveAbsent(s: seq<Chan>, x: Chan)
    requires x !in s
    ensures Remove(s, x) == s
  {
    if |s| > 0 {
      RemoveAbsent(s[1..], x);
      assert s == [s[0]] + s[1..];
    }
  }

  /** Removal never adds a channel. */
  lemma RemoveShrinks(s: seq<Chan>, x: Chan, y: Chan)
    ensures y in Remove(s, x) ==> y in s
  {
    if y in Remove(s, x) {
      RemoveMultiset(s, x);
      assert multiset(Remove(s, x))[y] > 0;
    }
  }

  /** A leave splices the channel out of the room's list when it is there; otherwise nothing changes. No room key is ever deleted. */
  function LeaveRooms(rooms: Rooms, room: string, ch: Chan): (r: Rooms)
    ensures r.Keys == rooms.Keys
    ensures forall other :: other in rooms && other != room ==> r[other] == rooms[other]
    ensures room in rooms ==> r[room] == Remove(rooms[room], ch)
  {
    if room in rooms && ch in rooms[room] then rooms[room := Remove(rooms[room], ch)]
    else
      assert room in rooms ==> Remove(rooms[room], ch) == rooms[room] by {
        if room in rooms { RemoveAbsent(rooms[room], ch); }
      }
      rooms
  }

  // ---------------------------------------------------------------------
  // Publish
  // ---------------------------------------------------------------------

  /** One message handed to one channel. */
  datatype Delivery = Delivery(to: Chan, msg: Message)

  /** The message a publish carries: the current counter, kind "msg", the request body. */
  function PostMessage(id: int, body: string): (m: Message)
    ensures NoLineBreak(body) ==> Decode(Encode(m)) == Some(Message(id, "msg", body))
  {
    var m := Message(id, "msg", body);
    assert NoLineBreak(body) ==> Decode(Encode(m)) == Some(m) by {
      if NoLineBreak(body) { DecodeEncode(m); }
    }
    m
  }

  /** A send of msg to each channel, in list order. */
  function FanOut(chans: seq<Chan>, msg: Message): (sent: seq<Delivery>)
    ensures |sent| == |chans|
    ensures forall i :: 0 <= i < |chans| ==> sent[i] == Delivery(chans[i], msg)
  {
    if |chans| == 0 then [] else [Delivery(chans[0], msg)] + FanOut(chans[1..], msg)
  }

  lemma FanOutSnoc(chans: seq<Chan>, c: Chan, msg: Message)
    ensures FanOut(chans + [c], msg) == FanOut(chans, msg) + [Delivery(c, msg)]
  {
  }

  /** How many deliveries went to channel c. */
  function CopiesTo(sent: seq<Delivery>, c: Chan): nat
  {
    if |sent| == 0 then 0
    else (if sent[0].to == c then 1 else 0) + CopiesTo(sent[1..], c)
  }

  /** In a list without repeats, every listed channel gets exactly one copy and every other channel none. */
  lemma {:induction false} FanOutOnce(chans: seq<Chan>, msg: Message, c: Chan)
    requires Distinct(chans)
    ensures CopiesTo(FanOut(chans, msg), c) == if c in chans then 1 else 0
  {
    if |chans| > 0 {
      var sent, rest := FanOut(chans, msg), chans[1..];
      assert sent[1..] == FanOut(rest, msg);
      assert Distinct(rest) by {
        forall i, j | 0 <= i < j < |rest| ensures rest[i] != rest[j] {
          assert rest[i] == chans[i + 1] && rest[j] == chans[j + 1];
        }
      }
      assert chans[0] !in rest by {
        forall j | 0 <= j < |rest| ensures rest[j] != chans[0] {
          assert rest[j] == chans[j + 1];
        }
      }
      FanOutOnce(rest, msg, c);
      assert chans == [chans[0]] + rest;
    }
  }

  // ---------------------------------------------------------------------
  // The broker as a state machine
  // ---------------------------------------------------------------------

  datatype Request =
    | Join(room: string, ch: Chan)
    | Leave(room: string, ch: Chan)
    | Publish(room: string, body: string)

  /**
   * The room map, the next message id, and the channels closed so far
   * in the order they were closed.
   */
  datatype State = State(rooms: Rooms, nextId: int, closed: seq<Chan>)

  /** An empty map and a counter at zero, as the program starts. */
  function Init(): State
  {
    State(map[], 0, [])
  }

  /**
   * One request applied to the broker: only a publish moves the counter
   * (by one) and leaves the rooms alone; only a leave closes, at most one
   * channel, appended to the closed log.
   */
  function Next(s: State, req: Request): (s': State)
    ensures s'.nextId == if req.Publish? then s.nextId + 1 else s.nextId
    ensures req.Publish? ==> s'.rooms == s.rooms
    ensures s'.rooms.Keys == s.rooms.Keys + (if req.Join? then {req.room} else {})
    ensures s.closed <= s'.closed && |s'.closed| <= |s.closed| + (if req.Leave? then 1 else 0)
  {
    match req
    case Join(room, ch) => s.(rooms := JoinRooms(s.rooms, room, ch))
    case Leave(room, ch) =>
      s.(rooms := LeaveRooms(s.rooms, room, ch),
         closed := if ch in Members(s.rooms, room) then s.closed + [ch] else s.closed)
    case Publish(room, body) => s.(nextId := s.nextId + 1)
  }

  /** What a request sends: nothing for a join or leave; for a publish, one message per channel of the room, stamped with the current counter. */
  function Deliveries(s: State, req: Request): (sent: seq<Delivery>)
    ensures !req.Publish? ==> sent == []
    ensures req.Publish? ==> |sent| == |Members(s.rooms, req.room)|
    ensures req.Publish? ==> forall i :: 0 <= i < |sent| ==>
              sent[i].to == Members(s.rooms, req.room)[i] && sent[i].msg == Message(s.nextId, "msg", req.body)
  {
    match req
    case Publish(room, body) => FanOut(Members(s.rooms, room), PostMessage(s.nextId, body))
    case _ => []
  }

  /**
   * No room lists a channel twice, a channel is listed in at most one room,
   * no channel is closed twice, and no listed channel is closed.
   */
  predicate Inv(s: State)
  {
    && (forall room :: room in s.rooms ==> Distinct(s.rooms[room]))
    && (forall r1, r2, c :: r1 in s.rooms && r2 in s.rooms && c in s.rooms[r1] && c in s.rooms[r2] ==> r1 == r2)
    && Distinct(s.closed)
    && (forall room, c :: room in s.rooms && c in s.rooms[room] ==> c !in s.closed)
  }

  /** A channel that is neither listed nor closed, as each session's freshly made channel is. */
  predicate Unused(s: State, ch: Chan)
  {
    ch !in s.closed && forall room :: room in s.rooms ==> ch !in s.rooms[room]
  }

  lemma JoinPreservesInv(s: State, room: string, ch: Chan)
    requires Inv(s) && Unused(s, ch)
    ensures Inv(Next(s, Join(room, ch)))
  {
    var r := Next(s, Join(room, ch)).rooms;
    var m := Members(s.rooms, room);
    assert Distinct(r[room]) by {
      forall i, j | 0 <= i < j < |r[room]| ensures r[room][i] != r[room][j] {
        if j == |m| { assert r[room][i] == m[i]; }
      }
    }
    forall r1, r2, c | r1 in r && r2 in r && c in r[r1] && c in r[r2] ensures r1 == r2 {
      if c == ch {
        assert r1 == room && r2 == room;
      } else {
        assert c in Members(s.rooms, r1) && c in Members(s.rooms, r2);
      }
    }
    forall rm, c | rm in r && c in r[rm] ensures c !in s.closed {
      if c != ch { assert c in Members(s.rooms, rm); }
    }
  }

  lemma LeavePreservesInv(s: State, room: string, ch: Chan)
    requires Inv(s)
    ensures Inv(Next(s, Leave(room, ch)))
  {
    var s' := Next(s, Leave(room, ch));
    if ch in Members(s.rooms, room) {
      RemoveDistinct(s.rooms[room], ch);
      forall c | c in Remove(s.rooms[room], ch) ensures c in s.rooms[room] {
        RemoveShrinks(s.rooms[room], ch, c);
      }
      assert ch !in s.closed;
      assert Distinct(s'.closed) by {
        forall i, j | 0 <= i < j < |s'.closed| ensures s'.closed[i] != s'.closed[j] {
          if j == |s.closed| {
            assert s'.closed[i] == s.closed[i] && s'.closed[j] == ch;
          } else {
            assert s'.closed[i] == s.closed[i] && s'.closed[j] == s.closed[j];
          }
        }
      }
      forall rm, c | rm in s'.rooms && c in s'.rooms[rm] ensures c !in s'.closed {
        assert c in s.rooms[rm];
        if rm == room { assert c != ch; } else { assert c != ch; }
      }
    } else {
      if room in s.rooms { RemoveAbsent(s.rooms[room], ch); }
      assert s' == s;
    }
  }

  /** The invariant holds after every request, provided each join brings an unused channel. */
  lemma StepPreservesInv(s: State, req: Request)
    requires Inv(s)
    requires req.Join? ==> Unused(s, req.ch)
    ensures Inv(Next(s, req))
  {
    match req
    case Join(room, ch) => JoinPreservesInv(s, room, ch);
    case Leave(room, ch) => LeavePreservesInv(s, room, ch);
    case Publish(_, _) =>
  }

  /** Once spliced out of its room, a listed channel is in no room and has not been closed before: it may be closed now. */
  lemma LeaveClears(s: State, room: string, ch: Chan)
    requires Inv(s) && ch in Members(s.rooms, room)
    ensures ch !in s.closed
    ensures forall r :: r in LeaveRooms(s.rooms, room, ch) ==> ch !in LeaveRooms(s.rooms, room, ch)[r]
  {
    RemoveDistinct(s.rooms[room], ch);
  }

  /** A channel listed once is gone after its leave and is closed exactly once; nothing else changes. */
  lemma LeaveRemovesOnce(s: State, room: string, ch: Chan)
    requires Inv(s) && ch in Members(s.rooms, room)
    ensures ch !in Members(Next(s, Leave(room, ch)).rooms, room)
    ensures |Members(Next(s, Leave(room, ch)).rooms, room)| == |Members(s.rooms, room)| - 1
    ensures Next(s, Leave(room, ch)).closed == s.closed + [ch]
    ensures ch !in s.closed
  {
    RemoveDistinct(s.rooms[room], ch);
  }

  /** A second leave of the same channel from the same room is a no-op and closes nothing. */
  lemma LeaveIdempotent(s: State, room: string, ch: Chan)
    requires Inv(s)
    ensures Next(Next(s, Leave(room, ch)), Leave(room, ch)) == Next(s, Leave(room, ch))
  {
    var s' := Next(s, Leave(room, ch));
    if room in s.rooms {
      RemoveDistinct(s.rooms[room], ch);
      RemoveAbsent(s'.rooms[room], ch);
    }
  }

  /**
   * A leave changes the broker exactly when the channel is listed in that
   * room: leaving an unknown room, or a room the channel never joined,
   * changes no list and closes nothing.
   */
  lemma LeaveAbsent(s: State, room: string, ch: Chan)
    ensures Next(s, Leave(room, ch)) == s <==> ch !in Members(s.rooms, room)
  {
    var s' := Next(s, Leave(room, ch));
    if ch in Members(s.rooms, room) {
      assert |s'.closed| == |s.closed| + 1;
    }
  }

  /**
   * A session's join of a fresh channel followed by its leave restores the
   * room's list, leaves the room key in place (possibly with an empty list),
   * and closes the channel once.
   */
  lemma JoinThenLeave(s: State, room: string, ch: Chan)
    requires Unused(s, ch)
    ensures Next(Next(s, Join(room, ch)), Leave(room, ch))
         == s.(rooms := s.rooms[room := Members(s.rooms, room)], closed := s.closed + [ch])
  {
    var m := Members(s.rooms, room);
    assert ch !in m;
    RemoveAppended(m, ch);
  }

  lemma {:induction false} RemoveAppended(s: seq<Chan>, x: Chan)
    requires x !in s
    ensures Remove(s + [x], x) == s
  {
    if |s| > 0 {
      assert (s + [x])[1..] == s[1..] + [x];
      RemoveAppended(s[1..], x);
      assert s == [s[0]] + s[1..];
    }
  }

  /** A publish leaves the rooms and closed channels alone, advances the id by one, and sends one copy per listed channel. */
  lemma PublishDelivers(s: State, room: string, body: string, c: Chan)
    requires Inv(s)
    ensures Next(s, Publish(room, body)) == s.(nextId := s.nextId + 1)
    ensures CopiesTo(Deliveries(s, Publish(room, body)), c) == if c in Members(s.rooms, room) then 1 else 0
    ensures forall d :: d in Deliveries(s, Publish(room, body)) ==> d.msg == Message(s.nextId, "msg", body)
    ensures forall other :: other in s.rooms && other != room && c in s.rooms[other] ==>
              CopiesTo(Deliveries(s, Publish(room, body)), c) == 0
  {
    FanOutOnce(Members(s.rooms, room), PostMessage(s.nextId, body), c);
  }

  // ---------------------------------------------------------------------
  // Runs of requests
  // ---------------------------------------------------------------------

  /** The state after applying reqs, in order, to the empty broker. */
  function Run(reqs: seq<Request>): State
    decreases |reqs|
  {
    if |reqs| == 0 then Init() else Next(Run(reqs[..|reqs| - 1]), reqs[|reqs| - 1])
  }

  /** The broker after reqs, applied one at a time from s. */
  function Steps(s: State, reqs: seq<Request>): State
    decreases |reqs|
  {
    if |reqs| == 0 then s else Next(Steps(s, reqs[..|reqs| - 1]), reqs[|reqs| - 1])
  }

  /** Requests applied after a run continue that run. */
  lemma {:induction false} StepsRun(a: seq<Request>, b: seq<Request>)
    ensures Steps(Run(a), b) == Run(a + b)
    decreases |b|
  {
    if |b| == 0 {
      assert a + b == a;
    } else {
      var b' := b[..|b| - 1];
      StepsRun(a, b');
      assert (a + b)[..|a + b| - 1] == a + b';
    }
  }

  /** The channels that joins and leaves of reqs have named. */
  function ChansOf(reqs: seq<Request>): set<Chan>
  {
    set i | 0 <= i < |reqs| && !reqs[i].Publish? :: reqs[i].ch
  }

  /** Every join brings a channel no earlier request named (each session makes its own channel). */
  predicate FreshJoins(reqs: seq<Request>)
  {
    forall j :: 0 <= j < |reqs| && reqs[j].Join? ==> reqs[j].ch !in ChansOf(reqs[..j])
  }

  /** Number of publishes in reqs. */
  function Publishes(reqs: seq<Request>): nat
    decreases |reqs|
  {
    if |reqs| == 0 then 0
    else Publishes(reqs[..|reqs| - 1]) + (if reqs[|reqs| - 1].Publish? then 1 else 0)
  }

  lemma ChansOfSnoc(reqs: seq<Request>, req: Request)
    ensures ChansOf(reqs + [req]) == ChansOf(reqs) + (if req.Publish? then {} else {req.ch})
  {
    var all := reqs + [req];
    forall c | c in ChansOf(all) ensures c in ChansOf(reqs) + (if req.Publish? then {} else {req.ch}) {
      var i :| 0 <= i < |all| && !all[i].Publish? && all[i].ch == c;
      if i < |reqs| { assert reqs[i] == all[i]; }
    }
    forall c | c in ChansOf(reqs) ensures c in ChansOf(all) {
      var i :| 0 <= i < |reqs| && !reqs[i].Publish? && reqs[i].ch == c;
      assert all[i] == reqs[i];
    }
    if !req.Publish? { assert all[|reqs|] == req; }
  }

  lemma FreshJoinsPrefix(reqs: seq<Request>, k: nat)
    requires FreshJoins(reqs) && k <= |reqs|
    ensures FreshJoins(reqs[..k])
  {
    forall j | 0 <= j < k && reqs[..k][j].Join? ensures reqs[..k][j].ch !in ChansOf(reqs[..k][..j]) {
      assert reqs[..k][..j] == reqs[..j];
    }
  }

  /** Each publish advances the id by one, so after a run the counter equals the number of publishes. */
  lemma {:induction false} RunNextId(reqs: seq<Request>)
    ensures Run(reqs).nextId == Publishes(reqs)
    decreases |reqs|
  {
    if |reqs| > 0 {
      RunNextId(reqs[..|reqs| - 1]);
    }
  }

  /**
   * Over any run whose joins bring fresh channels: the invariant holds
   * (no room lists a channel twice, no channel is closed twice), and every
   * listed or closed channel was named by some request of the run.
   */
  lemma {:induction false} RunInv(reqs: seq<Request>)
    requires FreshJoins(reqs)
    ensures Inv(Run(reqs))
    ensures forall room, c :: room in Run(reqs).rooms && c in Run(reqs).rooms[room] ==> c in ChansOf(reqs)
    ensures forall c :: c in Run(reqs).closed ==> c in ChansOf(reqs)
    decreases |reqs|
  {
    if |reqs| > 0 {
      var pre, req := reqs[..|reqs| - 1], reqs[|reqs| - 1];
      assert reqs == pre + [req];
      FreshJoinsPrefix(reqs, |reqs| - 1);
      RunInv(pre);
      ChansOfSnoc(pre, req);
      var s := Run(pre);
      if req.Join? {
        assert req.ch !in ChansOf(pre);
        assert Unused(s, req.ch);
      }
      StepPreservesInv(s, req);
      var s' := Run(reqs);
      forall room, c | room in s'.rooms && c in s'.rooms[room] ensures c in ChansOf(reqs) {
        if req.Publish? || c != req.ch {
          match req
          case Join(r, ch) => assert c in Members(s.rooms, room);
          case Leave(r, ch) =>
            if room == r && ch in Members(s.rooms, r) {
              RemoveShrinks(s.rooms[r], ch, c);
            }
          case Publish(_, _) =>
        }
      }
    }
  }

  /** After a leave of a joined channel has been processed, the channel never reappears in that room. */
  lemma {:induction false} GoneAfterLeave(reqs: seq<Request>, i: nat, k: nat)
    requires FreshJoins(reqs)
    requires i < k <= |reqs| && reqs[i].Leave?
    ensures reqs[i].ch !in Members(Run(reqs[..k]).rooms, reqs[i].room)
    decreases k
  {
    var room, ch := reqs[i].room, reqs[i].ch;
    var pre := reqs[..k - 1];
    assert reqs[..k][..k - 1] == pre;
    FreshJoinsPrefix(reqs, k - 1);
    RunInv(pre);
    var s := Run(pre);
    var req := reqs[k - 1];
    if k - 1 == i {
      if room in s.rooms { RemoveDistinct(s.rooms[room], ch); }
    } else {
      GoneAfterLeave(reqs, i, k - 1);
      match req
      case Join(r, c) =>
        assert pre[i] == reqs[i];
        assert ch in ChansOf(pre);
        assert reqs[k - 1].ch !in ChansOf(reqs[..k - 1]);
      case Leave(r, c) =>
        if r == room && c in Members(s.rooms, r) {
          RemoveShrinks(s.rooms[r], c, ch);
        }
      case Publish(_, _) =>
    }
  }

  /** What the i-th request of a run sends. */
  function DeliveriesAt(reqs: seq<Request>, i: nat): seq<Delivery>
    requires i < |reqs|
  {
    Deliveries(Run(reqs[..i]), reqs[i])
  }

  lemma RunSnoc(reqs: seq<Request>, i: nat)
    requires i < |reqs|
    ensures Run(reqs[..i + 1]) == Next(Run(reqs[..i]), reqs[i])
  {
    assert reqs[..i + 1][..i] == reqs[..i];
  }

  /** In a run with fresh joins, every request meets a state where it may be applied: the invariant holds and a join's channel is unused. */
  lemma RunStepReady(reqs: seq<Request>, i: nat)
    requires FreshJoins(reqs) && i < |reqs|
    ensures Inv(Run(reqs[..i]))
    ensures reqs[i].Join? ==> Unused(Run(reqs[..i]), reqs[i].ch)
  {
    FreshJoinsPrefix(reqs, i);
    RunInv(reqs[..i]);
  }

  /** The n-th publish of a run (counting from zero) carries id n in every copy it sends. */
  lemma PublishIds(reqs: seq<Request>, i: nat)
    requires i < |reqs| && reqs[i].Publish?
    ensures forall d :: d in Deliveries(Run(reqs[..i]), reqs[i]) ==> d.msg.id == Publishes(reqs[..i])
  {
    RunNextId(reqs[..i]);
  }

  /** Later publishes carry larger ids: ids are never reused. */
  lemma {:induction false} PublishesMonotone(reqs: seq<Request>, i: nat, j: nat)
    requires i < j <= |reqs| && reqs[i].Publish?
    ensures Publishes(reqs[..i]) < Publishes(reqs[..j])
    decreases j
  {
    assert reqs[..j][..j - 1] == reqs[..j - 1];
    if j - 1 > i {
      PublishesMonotone(reqs, i, j - 1);
    }
  }
}
