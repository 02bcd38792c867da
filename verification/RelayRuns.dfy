/** Whole runs of the room: what is taken in of a phone's frames, and that a phone that left stays away. */
module RelayRuns {
  import opened Basics
  import opened RelayProtocol
  import opened RelayNotices

  /** The event opens a socket with this role. */
  predicate Opens(r: Room, e: Event, role: Attachment) {
    match e
    case ControlOpens => role == Control
    case PhoneOpens(id, _) => role == Phone(id) || role == Rejected
    case DataOpens(id) => role == Data(id) && Sockets(r.open, Phone(id)) != {}
    case _ => false
  }

  /** No other event adds a socket to a role. */
  lemma OnlyOpens(r: Room, e: Event, role: Attachment)
    requires r.next !in r.open && Possible(r, e) && !Opens(r, e, role)
    ensures Sockets(Step(r, e).open, role) <= Sockets(r.open, role) && r.ids <= Step(r, e).ids
  {
    match e
    case Arrives(s, m, now) => MessageOpensNothing(r, s, m, now, role);
    case Closes(s) => CloseOpensNothing(r, s, role);
    case _ =>
  }

  lemma MessageOpensNothing(r: Room, s: Socket, m: Message, now: real, role: Attachment)
    requires s in r.open
    ensures Sockets(OnMessage(r, s, m, now).open, role) <= Sockets(r.open, role) && OnMessage(r, s, m, now).ids == r.ids
  {
    MessageShape(r, s, m, now);
  }

  /** A message closes at most its own socket, and brings at most its own frame. */
  lemma MessageShape(r: Room, s: Socket, m: Message, now: real)
    requires s in r.open
    ensures
      var t := OnMessage(r, s, m, now);
      && (t.open == r.open || t.open == r.open - {s}) && t.ids == r.ids
      && (t.arrived == r.arrived || (m.Payload? && t.arrived == r.arrived + [Entry(s, r.open[s], Binary(m.frame))]))
  {
    if r.open[s].Phone? && m.Payload? { PhoneFrameShape(r, s, r.open[s].id, m.frame, now); }
  }

  lemma PhoneFrameShape(r: Room, s: Socket, id: Id, frame: Frame, now: real)
    requires s in r.open && r.open[s] == Phone(id)
    ensures
      var t := FromPhone(r, s, id, frame, now);
      && (t.open == r.open || t.open == r.open - {s}) && t.ids == r.ids
      && (t.arrived == r.arrived || t.arrived == r.arrived + [Entry(s, Phone(id), Binary(frame))])
  {
    var taken := Taken(r, id, now);
    assert taken.open == r.open && taken.ids == r.ids && taken.arrived == r.arrived;
  }

  lemma CloseOpensNothing(r: Room, s: Socket, role: Attachment)
    requires s in r.open || s in r.closing
    ensures Sockets(OnClose(r, s).open, role) <= Sockets(r.open, role) && OnClose(r, s).ids == r.ids
  {
    var t := OnClose(r, s);
    assert forall k | k in t.open :: k in r.open && t.open[k] == r.open[k];
  }

  // ------------------------------------------------------- frames taken in

  /** What an event brings from the phone of this connection. */
  function FromPhoneOf(r: Room, e: Event, id: Id): seq<Message> {
    match e
    case Arrives(s, m, _) => if s in r.open && r.open[s] == Phone(id) then [m] else []
    case _ => []
  }

  /** What the phone sent in the first `k` events. */
  function PhoneSent(events: seq<Event>, rooms: seq<Room>, id: Id, k: nat): seq<Message>
    requires k <= |events| < |rooms|
  {
    if k == 0 then [] else PhoneSent(events, rooms, id, k - 1) + FromPhoneOf(rooms[k - 1], events[k - 1], id)
  }

  function Payloads(frames: seq<Frame>): seq<Message> {
    if frames == [] then [] else Payloads(frames[..|frames| - 1]) + [Payload(frames[|frames| - 1])]
  }

  function TakenIn(r: Room, id: Id): seq<Message> {
    Payloads(FramesOf(r.arrived, Phone(id)))
  }

  /** All of these messages were taken in, or all but the last, which closed the phone. */
  ghost predicate AllButRejected(r: Room, id: Id, ms: seq<Message>) {
    || ms == TakenIn(r, id)
    || (ms != [] && ms[..|ms| - 1] == TakenIn(r, id) && Sockets(r.open, Phone(id)) == {} && id in r.ids)
  }

  /** An event that brings nothing from this phone takes nothing in from it. */
  lemma OthersTakeNothing(r: Room, e: Event, id: Id)
    requires Possible(r, e) && FromPhoneOf(r, e, id) == []
    ensures FramesOf(Step(r, e).arrived, Phone(id)) == FramesOf(r.arrived, Phone(id))
  {
    match e
    case Arrives(s, m, now) =>
      MessageShape(r, s, m, now);
    case Closes(s) =>
    case _ =>
  }

  lemma PhoneMessageStep(r: Room, s: Socket, id: Id, m: Message, now: real)
    requires Inv(r) && s in r.open && r.open[s] == Phone(id)
    ensures AllButRejected(OnMessage(r, s, m, now), id, TakenIn(r, id) + [m])
  {
    AcceptedOrClosed(r, s, id, m, now);
    var t := OnMessage(r, s, m, now);
    if m.Payload? && Accepts(r, id, m.frame, now) {
      var frames := FramesOf(r.arrived, Phone(id));
      assert (frames + [m.frame])[..|frames|] == frames;
    } else {
      assert s in Sockets(r.open, Phone(id)) && AtMostOne(r.open, Phone(id));
      assert Sockets(r.open, Phone(id)) == {s};
      assert Sockets(t.open, Phone(id)) == Sockets(r.open, Phone(id)) - {s};
      assert (TakenIn(r, id) + [m])[..|TakenIn(r, id)|] == TakenIn(r, id);
    }
  }

  /**
   Over every run the room takes in exactly the frames that the phone sent before its first rejected
   message, in order; that message closes the phone and nothing comes after it.
   */
  lemma {:induction false} TakenInAreFirst(events: seq<Event>, rooms: seq<Room>, id: Id, k: nat)
    requires IsRun(events, rooms) && k <= |events|
    ensures AllButRejected(rooms[k], id, PhoneSent(events, rooms, id, k))
  {
    if k > 0 {
      TakenInAreFirst(events, rooms, id, k - 1);
      TakenInNext(events, rooms, id, k - 1);
    }
  }

  lemma TakenInNext(events: seq<Event>, rooms: seq<Room>, id: Id, k: nat)
    requires IsRun(events, rooms) && k < |events| && AllButRejected(rooms[k], id, PhoneSent(events, rooms, id, k))
    ensures AllButRejected(rooms[k + 1], id, PhoneSent(events, rooms, id, k + 1))
  {
    StepOf(events, rooms, k);
    StepTakesIn(rooms[k], events[k], id, PhoneSent(events, rooms, id, k));
  }

  lemma StepTakesIn(r: Room, e: Event, id: Id, ms: seq<Message>)
    requires Inv(r) && Possible(r, e) && AllButRejected(r, id, ms)
    ensures AllButRejected(Step(r, e), id, ms + FromPhoneOf(r, e, id))
  {
    if FromPhoneOf(r, e, id) == [] {
      assert ms + [] == ms;
      OthersTakeNothing(r, e, id);
      if ms != TakenIn(r, id) { OnlyOpens(r, e, Phone(id)); }
    } else {
      assert e.socket in Sockets(r.open, Phone(id));
      PhoneMessageStep(r, e.socket, id, e.message, e.now);
    }
  }

  // ------------------------------------------------------------- gone for good

  /** The phone of this connection is gone, and with it every socket of the connection. */
  ghost predicate Ended(r: Room, id: Id) {
    id in r.ids && Sockets(r.open, Phone(id)) == {} && Sockets(r.open, Data(id)) == {}
  }

  lemma EndedStays(r: Room, e: Event, id: Id)
    requires Inv(r) && Possible(r, e) && Ended(r, id)
    ensures Ended(Step(r, e), id)
  {
    OnlyOpens(r, e, Phone(id));
    OnlyOpens(r, e, Data(id));
  }

  /** The event is the close event of this connection's phone. */
  predicate PhoneCloses(r: Room, e: Event, id: Id) {
    e.Closes? && if e.socket in r.open then r.open[e.socket] == Phone(id)
                 else e.socket in r.closing && r.closing[e.socket] == Phone(id)
  }

  lemma PhoneCloseEnds(r: Room, e: Event, id: Id)
    requires Inv(r) && PhoneCloses(r, e, id)
    ensures Ended(Step(r, e), id)
  {
    PhoneGoneForGood(r, e.socket, id);
    var g := Gone(r, e.socket);
  }

  lemma EndedAfter(r: Room, e: Event, id: Id)
    requires Inv(r) && Possible(r, e) && (Ended(r, id) || PhoneCloses(r, e, id))
    ensures Ended(Step(r, e), id)
  {
    if PhoneCloses(r, e, id) { PhoneCloseEnds(r, e, id); } else { EndedStays(r, e, id); }
  }

  lemma StepOf(events: seq<Event>, rooms: seq<Room>, k: nat)
    requires IsRun(events, rooms) && k < |events|
    ensures Inv(rooms[k]) && Possible(rooms[k], events[k]) && rooms[k + 1] == Step(rooms[k], events[k])
  {
    ReachableInv(events, rooms, k);
    assert Follows(events, rooms, k);
  }

  lemma EndedNext(events: seq<Event>, rooms: seq<Room>, id: Id, k: nat)
    requires IsRun(events, rooms) && k < |events| && (Ended(rooms[k], id) || PhoneCloses(rooms[k], events[k], id))
    ensures Ended(rooms[k + 1], id)
  {
    StepOf(events, rooms, k);
    EndedAfter(rooms[k], events[k], id);
  }

  /** After the close event of its phone no socket of a connection, phone or data, is ever open again. */
  lemma {:induction false} EndedForGood(events: seq<Event>, rooms: seq<Room>, id: Id, i: nat, k: nat)
    requires IsRun(events, rooms) && i < k <= |events| && PhoneCloses(rooms[i], events[i], id)
    ensures Ended(rooms[k], id)
    decreases k
  {
    if i < k - 1 { EndedForGood(events, rooms, id, i, k - 1); }
    EndedNext(events, rooms, id, k - 1);
  }
}
