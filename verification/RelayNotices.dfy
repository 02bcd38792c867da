/** What the desktop hears of its phones on the control socket, over every run of the room. */
module RelayNotices {
  import opened Basics
  import opened RelayProtocol

  /** How often a control socket was sent this packet. */
  function Count(log: seq<Entry>, p: Packet): nat {
    if log == [] then 0 else Count(log[..|log| - 1], p) + if Tells(log[|log| - 1], p) then 1 else 0
  }

  predicate Tells(e: Entry, p: Packet) {
    e.role == Control && e.packet == p
  }

  /** The phone sockets of a connection whose close event has not come yet. */
  function Ever(r: Room, id: Id): set<Socket> {
    Sockets(r.open, Phone(id)) + Sockets(r.closing, Phone(id))
  }

  /** Nothing about this connection's phone or its notices changes. */
  ghost predicate Quiet(r: Room, t: Room, id: Id) {
    && Ever(t, id) == Ever(r, id) && (id in t.ids <==> id in r.ids)
    && Count(t.sent, Connected(id)) == Count(r.sent, Connected(id))
    && Count(t.sent, Disconnected(id)) == Count(r.sent, Disconnected(id))
  }

  // ------------------------------------------------------------------ counting

  lemma {:induction false} CountAdds(a: seq<Entry>, b: seq<Entry>, p: Packet)
    ensures Count(a + b, p) == Count(a, p) + Count(b, p)
  {
    if b == [] {
      assert a + b == a;
    } else {
      assert (a + b)[..|a + b| - 1] == a + b[..|b| - 1];
      CountAdds(a, b[..|b| - 1], p);
    }
  }

  lemma {:induction false} NoneAmong(log: seq<Entry>, p: Packet)
    requires forall e | e in log :: e.packet != p
    ensures Count(log, p) == 0
  {
    if log != [] { NoneAmong(log[..|log| - 1], p); }
  }

  lemma {:induction false} CountCopies(open: OpenSockets, ss: set<Socket>, packet: Packet, p: Packet)
    requires ss <= open.Keys
    ensures packet != p ==> Count(Copies(open, ss, packet), p) == 0
    ensures packet == p && (forall s | s in ss :: open[s] == Control) ==> Count(Copies(open, ss, packet), p) == |ss|
  {
    if ss != {} {
      var e := Entry(First(ss), open[First(ss)], packet);
      CountCopies(open, ss - {First(ss)}, packet, p);
      CountAdds([e], Copies(open, ss - {First(ss)}, packet), p);
    }
  }

  // --------------------------------------------------------------- quiet steps

  lemma CloseIsQuiet(r: Room, ss: set<Socket>, id: Id)
    requires r.open.Keys !! r.closing.Keys
    ensures Quiet(r, Close(r, ss), id) && Close(r, ss).open.Keys !! Close(r, ss).closing.Keys
  {
    var t := Close(r, ss);
    forall s ensures s in Ever(t, id) <==> s in Ever(r, id) {}
  }

  lemma SendingIsQuiet(r: Room, es: seq<Entry>, id: Id)
    requires forall e | e in es :: e.packet != Connected(id) && e.packet != Disconnected(id)
    ensures Quiet(r, r.(sent := r.sent + es), id)
  {
    CountAdds(r.sent, es, Connected(id));
    CountAdds(r.sent, es, Disconnected(id));
    NoneAmong(es, Connected(id));
    NoneAmong(es, Disconnected(id));
  }

  lemma CopiesAreQuiet(r: Room, ss: set<Socket>, packet: Packet, id: Id)
    requires ss <= r.open.Keys && packet != Connected(id) && packet != Disconnected(id)
    ensures Quiet(r, Broadcast(r, ss, packet), id)
  {
    CountAdds(r.sent, Copies(r.open, ss, packet), Connected(id));
    CountAdds(r.sent, Copies(r.open, ss, packet), Disconnected(id));
    CountCopies(r.open, ss, packet, Connected(id));
    CountCopies(r.open, ss, packet, Disconnected(id));
  }

  lemma OpenControlIsQuiet(r: Room, id: Id)
    requires SocketsOk(r)
    ensures Quiet(r, OpenControl(r), id)
  {
    var ss := Sockets(r.open, Control) + PhonesAndData(r.open);
    CloseIsQuiet(r, ss, id);
  }

  lemma RejectIsQuiet(r: Room, id: Id)
    requires SocketsOk(r)
    ensures Quiet(r, Reject(r), id)
  {
    var a := Accept(r, Rejected);
    CloseIsQuiet(a, Sockets(a.open, Rejected), id);
  }

  lemma OpenDataIsQuiet(r: Room, data: Id, id: Id)
    requires SocketsOk(r)
    ensures Quiet(r, OpenData(r, data), id)
  {
    if Sockets(r.open, Phone(data)) != {} {
      CloseIsQuiet(r, Sockets(r.open, Data(data)), id);
      SendingIsQuiet(Accept(Replaced(r, data), Data(data)), Entries(r.next, Data(data), BufferOf(r, data).frames), id);
    }
  }

  lemma MessageIsQuiet(r: Room, s: Socket, m: Message, now: real, id: Id)
    requires SocketsOk(r) && s in r.open
    ensures Quiet(r, OnMessage(r, s, m, now), id)
  {
    match r.open[s]
    case Control =>
    case Rejected =>
    case Phone(c) =>
      CloseIsQuiet(r, {s}, id);
      if !BadFrame(m) { PhoneFrameIsQuiet(r, s, c, m.frame, now, id); }
    case Data(c) =>
      CloseIsQuiet(r, {s}, id);
      if !BadFrame(m) { CopiesAreQuiet(r, Sockets(r.open, Phone(c)), Binary(m.frame), id); }
  }

  lemma PhoneFrameIsQuiet(r: Room, s: Socket, c: Id, frame: Frame, now: real, id: Id)
    requires SocketsOk(r) && s in r.open
    ensures Quiet(r, FromPhone(r, s, c, frame, now), id)
  {
    var t := Taken(r, c, now);
    CloseIsQuiet(t, {s}, id);
    if Sockets(r.open, Data(c)) != {} {
      var d := First(Sockets(r.open, Data(c)));
      SendingIsQuiet(t, [Entry(d, r.open[d], Binary(frame))], id);
    }
  }

  // ------------------------------------------------------------------ notices

  /** The control was told of the phone exactly once, and of its end at most once, after its close. */
  ghost predicate Told(r: Room, id: Id) {
    && Count(r.sent, Connected(id)) == (if id in r.ids then 1 else 0)
    && (forall s, t | s in Ever(r, id) && t in Ever(r, id) :: s == t)
    && (Ever(r, id) != {} ==> id in r.ids)
    && Count(r.sent, Disconnected(id)) <= (if id in r.ids && Ever(r, id) == {} then 1 else 0)
  }

  lemma OpenPhoneTells(r: Room, phone: Id, now: real, id: Id)
    requires SocketsOk(r) && phone !in r.ids && Told(r, id) && Told(r, phone)
    ensures Told(OpenPhone(r, phone, now), id)
  {
    if Sockets(r.open, Control) == {} || |Phones(r.open)| >= MAX_PHONES_PER_ROOM {
      RejectIsQuiet(r, id);
    } else {
    }
  }

  /** The close event of a phone tells an open control once; any other close event tells nobody. */
  lemma CloseTells(r: Room, s: Socket, id: Id)
    requires SocketsOk(r) && (s in r.open || s in r.closing)
    ensures TellsOfClose(r, s, OnClose(r, s), id)
  {
    var g := Gone(r, s);
    GoneIsForgotten(r, s, id);
    match if s in r.open then r.open[s] else r.closing[s]
    case Rejected =>
    case Control => CloseIsQuiet(g, PhonesAndData(g.open), id);
    case Data(c) => CloseIsQuiet(g, Sockets(g.open, Phone(c)), id);
    case Phone(c) => PhoneCloseTells(r, s, c, id);
  }

  ghost predicate TellsOfClose(r: Room, s: Socket, t: Room, id: Id)
    requires s in r.open || s in r.closing
  {
    var role := if s in r.open then r.open[s] else r.closing[s];
    && (id in t.ids <==> id in r.ids)
    && Count(t.sent, Connected(id)) == Count(r.sent, Connected(id))
    && Count(t.sent, Disconnected(id))
       == Count(r.sent, Disconnected(id))
         + (if role == Phone(id) && Sockets(Gone(r, s).open, Control) != {} then 1 else 0)
    && Ever(t, id) == Ever(r, id) - {s}
  }

  lemma GoneIsForgotten(r: Room, s: Socket, id: Id)
    requires r.open.Keys !! r.closing.Keys && Unique(r.open)
    ensures Ever(Gone(r, s), id) == Ever(r, id) - {s} && Unique(Gone(r, s).open)
  {
    GoneStaysUnique(r, s);
  }

  lemma PhoneCloseTells(r: Room, s: Socket, c: Id, id: Id)
    requires r.open.Keys !! r.closing.Keys && Unique(r.open)
    requires if s in r.open then r.open[s] == Phone(c) else s in r.closing && r.closing[s] == Phone(c)
    ensures TellsOfClose(r, s, OnClose(r, s), id)
  {
    var g := Gone(r, s);
    GoneIsForgotten(r, s, id);
    var d := Close(g, Sockets(g.open, Data(c)));
    CloseIsQuiet(g, Sockets(g.open, Data(c)), id);
    PhoneEnds(r, d.(buckets := r.buckets - {c}, buffers := r.buffers - {c}, cleared := r.cleared + {c}), g, c, id);
  }

  lemma PhoneEnds(r: Room, t: Room, g: Room, c: Id, id: Id)
    requires t.sent == r.sent && Unique(g.open) && t.open == g.open - Sockets(g.open, Data(c))
    ensures
      var b := Broadcast(t, Sockets(t.open, Control), Disconnected(c));
      && Count(b.sent, Connected(id)) == Count(r.sent, Connected(id))
      && Count(b.sent, Disconnected(id))
         == Count(r.sent, Disconnected(id)) + (if c == id && Sockets(g.open, Control) != {} then 1 else 0)
  {
    var controls := Sockets(t.open, Control);
    assert controls == Sockets(g.open, Control);
    assert AtMostOne(g.open, Control);
    CountAdds(t.sent, Copies(t.open, controls, Disconnected(c)), Connected(id));
    CountAdds(t.sent, Copies(t.open, controls, Disconnected(c)), Disconnected(id));
    CountCopies(t.open, controls, Disconnected(c), Connected(id));
    CountCopies(t.open, controls, Disconnected(c), Disconnected(id));
    if controls != {} { assert controls == {First(controls)}; }
  }

  lemma StepTells(r: Room, e: Event, id: Id)
    requires Inv(r) && Possible(r, e) && forall other :: Told(r, other)
    ensures Told(Step(r, e), id)
  {
    match e
    case ControlOpens => OpenControlIsQuiet(r, id);
    case PhoneOpens(phone, now) => OpenPhoneTells(r, phone, now, id);
    case DataOpens(data) => OpenDataIsQuiet(r, data, id);
    case Arrives(s, m, now) => MessageIsQuiet(r, s, m, now, id);
    case Closes(s) => CloseStaysTold(r, s, id);
  }

  lemma CloseStaysTold(r: Room, s: Socket, id: Id)
    requires Inv(r) && (s in r.open || s in r.closing) && Told(r, id)
    ensures Told(OnClose(r, s), id)
  {
    CloseTells(r, s, id);
    var role := if s in r.open then r.open[s] else r.closing[s];
    assert s in Ever(r, id) <==> role == Phone(id);
    if s in Ever(r, id) { assert Ever(r, id) - {s} == {}; }
  }

  lemma GoneStaysUnique(r: Room, s: Socket)
    requires Unique(r.open)
    ensures Unique(Gone(r, s).open)
  {
    forall role | role != Rejected ensures AtMostOne(Gone(r, s).open, role) {
      assert AtMostOne(r.open, role);
      assert Sockets(Gone(r, s).open, role) <= Sockets(r.open, role);
    }
  }

  /**
   In every reachable state the desktop was told of each connection exactly once, and of its end at
   most once and only after the phone's close event.
   */
  lemma {:induction false} DesktopIsTold(events: seq<Event>, rooms: seq<Room>, i: nat, id: Id)
    requires IsRun(events, rooms) && i < |rooms|
    ensures Told(rooms[i], id)
  {
    if i == 0 {
      assert Ever(INITIAL, id) == {};
    } else {
      ReachableInv(events, rooms, i - 1);
      var before := rooms[i - 1];
      forall other ensures Told(before, other) { DesktopIsTold(events, rooms, i - 1, other); }
      assert Follows(events, rooms, i - 1);
      StepTells(before, events[i - 1], id);
    }
  }
}
