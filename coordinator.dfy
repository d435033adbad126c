/**
 * The broker object and the coordinator that applies join and leave
 * requests to its room map one at a time, together with the publish
 * handler's fan-out loop and its message counter.
 */
module Coordinator {
  import opened EventStream
  import opened Membership

  class Broker {
    /** Room name to subscriber channels, in join order. */
    var rooms: Rooms
    /** The id the next publish stamps on its message. */
    var messageId: int
    /** Every channel the coordinator has closed, in closing order. */
    var closed: seq<Chan>

    constructor ()
      ensures Snapshot() == Init() && Valid()
    {
      rooms := map[];
      messageId := 0;
      closed := [];
    }

    function Snapshot(): State
      reads this
    {
      State(rooms, messageId, closed)
    }

    predicate Valid()
      reads this
    {
      Inv(Snapshot())
    }

    /**
     * close(ch): allowed only once per channel (a second close panics in Go)
     * and only once no room lists the channel any more.
     */
    method Close(ch: Chan)
      requires ch !in closed
      requires forall room :: room in rooms ==> ch !in rooms[room]
      modifies this`closed
      ensures closed == old(closed) + [ch]
    {
      closed := closed + [ch];
    }

    /** The join case of the coordinator. */
    method Join(room: string, ch: Chan)
      modifies this`rooms
      ensures Snapshot() == Next(old(Snapshot()), Request.Join(room, ch))
      ensures old(Valid()) && old(Unused(Snapshot(), ch)) ==> Valid()
    {
      ghost var s := Snapshot();
      if room in rooms {
        rooms := rooms[room := rooms[room] + [ch]];
      } else {
        var roomChannels: seq<Chan> := [];
        rooms := rooms[room := roomChannels + [ch]];
      }
      if Inv(s) && Unused(s, ch) {
        JoinPreservesInv(s, room, ch);
      }
    }

    /**
     * The leave case of the coordinator. The range loop fixes its length
     * and walks a view of the room's backing array; a match splices the
     * slice in place, which shifts the later entries of that same array
     * down by one and leaves its last slot as it was.
     */
    method Leave(room: string, ch: Chan)
      requires Valid()
      modifies this`rooms, this`closed
      ensures Valid()
      ensures Snapshot() == Next(old(Snapshot()), Request.Leave(room, ch))
    {
      ghost var s := Snapshot();
      var view := Members(rooms, room);
      ghost var orig := view;
      var n := |view|;
      // where the channel sits in the list, or n when it is not there
      ghost var k := if ch in orig then IndexOf(orig, ch) else n;
      var i := 0;
      while i < n
        invariant 0 <= i <= n == |view| == |orig|
        invariant i <= k ==> view == orig && rooms == s.rooms && closed == s.closed
        invariant k < i ==> && view == Spliced(orig, k) + [orig[n - 1]]
                            && rooms == s.rooms[room := Spliced(orig, k)]
                            && closed == s.closed + [ch]
      {
        if k < i {
          ShiftedViewMisses(orig, ch, k, i);
        }
        if view[i] == ch {
          var spliced := view[..i] + view[i + 1..];
          rooms := rooms[room := spliced];
          view := spliced + [view[n - 1]];
          RemoveSplice(orig, ch);
          LeaveClears(s, room, ch);
          Close(ch);
        }
        i := i + 1;
      }
      if k < n {
        RemoveSplice(orig, ch);
      } else if room in s.rooms {
        RemoveAbsent(orig, ch);
      }
      LeavePreservesInv(s, room, ch);
    }

    /**
     * The publish handler: one send of Message{messageId, "msg", body} to
     * each channel of the room, in list order, then the counter moves on
     * whether or not anyone was listening.
     */
    method Publish(room: string, body: string) returns (sent: seq<Delivery>)
      modifies this`messageId
      ensures Snapshot() == Next(old(Snapshot()), Request.Publish(room, body))
      ensures sent == Deliveries(old(Snapshot()), Request.Publish(room, body))
      ensures messageId == old(messageId) + 1
      ensures |sent| == |Members(rooms, room)|
      ensures forall i :: 0 <= i < |sent| ==>
                sent[i] == Delivery(Members(rooms, room)[i], Message(old(messageId), "msg", body))
    {
      var chans := Members(rooms, room);
      sent := [];
      for i := 0 to |chans|
        invariant messageId == old(messageId)
        invariant sent == FanOut(chans[..i], PostMessage(messageId, body))
      {
        assert chans[..i + 1] == chans[..i] + [chans[i]];
        FanOutSnoc(chans[..i], chans[i], PostMessage(messageId, body));
        sent := sent + [Delivery(chans[i], Message(messageId, "msg", body))];
      }
      assert chans[..|chans|] == chans;
      messageId := messageId + 1;
    }

    /** Any request, applied as one atomic step. */
    method Apply(req: Request) returns (sent: seq<Delivery>)
      requires Valid()
      requires req.Join? ==> Unused(Snapshot(), req.ch)
      modifies this`rooms, this`closed, this`messageId
      ensures Valid()
      ensures Snapshot() == Next(old(Snapshot()), req)
      ensures sent == Deliveries(old(Snapshot()), req)
    {
      match req
      case Join(room, ch) =>
        Join(room, ch);
        sent := [];
      case Leave(room, ch) =>
        Leave(room, ch);
        sent := [];
      case Publish(room, body) =>
        sent := Publish(room, body);
    }

    /**
     * The coordinator run from the broker's creation over a whole sequence
     * of requests, each a fresh session's join, a leave, or a publish.
     */
    method Coordinate(reqs: seq<Request>) returns (sent: seq<seq<Delivery>>)
      requires Snapshot() == Init() && FreshJoins(reqs)
      modifies this`rooms, this`closed, this`messageId
      ensures Valid()
      ensures Snapshot() == Run(reqs)
      ensures |sent| == |reqs|
      ensures forall i :: 0 <= i < |reqs| ==> sent[i] == DeliveriesAt(reqs, i)
    {
      sent := [];
      for i := 0 to |reqs|
        invariant Snapshot() == Run(reqs[..i])
        invariant |sent| == i
        invariant forall j :: 0 <= j < i ==> sent[j] == DeliveriesAt(reqs, j)
      {
        ghost var before := Run(reqs[..i]);
        RunStepReady(reqs, i);
        var out := Apply(reqs[i]);
        assert out == Deliveries(before, reqs[i]);
        RunSnoc(reqs, i);
        sent := sent + [out];
      }
      assert reqs[..|reqs|] == reqs;
      RunInv(reqs);
    }
  }

  /** The list with entry k spliced out. */
  function Spliced(s: seq<Chan>, k: nat): seq<Chan>
    requires k < |s|
  {
    s[..k] + s[k + 1..]
  }

  /** Past the splice point, the range view holds no further copy of a channel listed once. */
  lemma ShiftedViewMisses(orig: seq<Chan>, ch: Chan, k: nat, i: nat)
    requires Distinct(orig) && k < i < |orig| && orig[k] == ch
    ensures (Spliced(orig, k) + [orig[|orig| - 1]])[i] != ch
  {
    var v := Spliced(orig, k) + [orig[|orig| - 1]];
    if i < |orig| - 1 {
      assert v[i] == orig[i + 1];
    } else {
      assert v[i] == orig[|orig| - 1];
    }
  }
}
