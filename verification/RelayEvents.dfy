/**
 What each event does to the room, socket by socket: who stays, who is closed, what is sent, what is
 kept.  Nothing here is said through the handlers.
 */
module RelayEvents {
  import opened Basics
  import opened TokenBuckets
  import opened RelayProtocol
  import opened RelayRuns

  predicate Stays(r: Room, t: Room, s: Socket) {
    s in r.open && s in t.open && t.open[s] == r.open[s]
  }

  predicate Shut(r: Room, t: Room, s: Socket) {
    s in r.open && s !in t.open && s in t.closing && t.closing[s] == r.open[s]
  }

  /** Of the sockets open before, exactly those in `ss` are closed; close events still to come still come. */
  ghost predicate Closed(r: Room, t: Room, ss: set<Socket>) {
    && (forall s :: s in r.open ==> if s in ss then Shut(r, t, s) else Stays(r, t, s))
    && (forall s :: s in r.closing ==> s in t.closing && t.closing[s] == r.closing[s])
  }

  /** Nobody new. */
  predicate NoneCame(r: Room, t: Room) {
    t.open.Keys <= r.open.Keys && t.next == r.next
  }

  /** One new socket. */
  predicate OneCame(r: Room, t: Room, role: Attachment) {
    && t.open.Keys <= r.open.Keys + {r.next} && t.next == r.next + 1
    && r.next in t.open && t.open[r.next] == role
  }

  /** A new control: every other connection ends, and what was kept for it is dropped. */
  lemma ControlComes(r: Room)
    requires SocketsOk(r)
    ensures
      var t := Step(r, ControlOpens);
      && Closed(r, t, set s | s in r.open && !r.open[s].Rejected?) && OneCame(r, t, Control)
      && t.buffers == map[] && t.cleared == r.ids
      && t.sent == r.sent && t.arrived == r.arrived && t.buckets == r.buckets && t.ids == r.ids
  {
  }

  /** A phone is let in under a control with fewer than 8 phones, and the control is told. */
  lemma PhoneComes(r: Room, id: Id, now: real, control: Socket)
    requires SocketsOk(r) && control in r.open && r.open[control] == Control && |Phones(r.open)| < 8
    requires id !in r.ids
    ensures
      var t := Step(r, PhoneOpens(id, now));
      && Closed(r, t, {}) && OneCame(r, t, Phone(id)) && t.closing == r.closing
      && t.sent == r.sent + [Entry(control, Control, Connected(id))] && t.arrived == r.arrived
      && t.buckets == r.buckets[id := Bucket(300.0, now)] && t.ids == r.ids + {id}
      && t.buffers == r.buffers && t.cleared == r.cleared
  {
    assert AtMostOne(r.open, Control) && control in Sockets(r.open, Control);
  }

  /** Otherwise it is closed at once, and nobody else notices. */
  lemma PhoneIsTurnedAway(r: Room, id: Id, now: real)
    requires SocketsOk(r) && id !in r.ids
    requires (forall s :: s in r.open ==> r.open[s] != Control) || |Phones(r.open)| >= 8
    ensures
      var t := Step(r, PhoneOpens(id, now));
      && Closed(r, t, set s | s in r.open && r.open[s].Rejected?) && r.next !in t.open
      && t.open.Keys <= r.open.Keys && r.next in t.closing && t.closing[r.next] == Rejected
      && t.sent == r.sent && t.arrived == r.arrived && t.buckets == r.buckets && t.ids == r.ids
      && t.buffers == r.buffers && t.cleared == r.cleared
  {
  }

  /** A data socket of an open phone replaces the one before and is sent what was kept, in order. */
  lemma DataComes(r: Room, id: Id, phone: Socket)
    requires SocketsOk(r) && phone in r.open && r.open[phone] == Phone(id)
    ensures
      var t := Step(r, DataOpens(id));
      var kept := if id in r.buffers then r.buffers[id].frames else [];
      && Closed(r, t, set s | s in r.open && r.open[s] == Data(id)) && OneCame(r, t, Data(id))
      && r.sent <= t.sent && |t.sent| == |r.sent| + |kept|
      && (forall i | 0 <= i < |kept| :: t.sent[|r.sent| + i] == Entry(r.next, Data(id), Binary(kept[i])))
      && t.buffers == r.buffers - {id} && t.arrived == r.arrived && t.buckets == r.buckets
      && t.ids == r.ids && t.cleared == r.cleared
  {
    assert phone in Sockets(r.open, Phone(id));
  }

  /** Without an open phone there is no such connection. */
  lemma DataIsRefused(r: Room, id: Id)
    requires forall s :: s in r.open ==> r.open[s] != Phone(id)
    ensures Step(r, DataOpens(id)) == r
  {
  }

  /** A text, or a frame over 65537 bytes, closes the phone or data socket it came from. */
  lemma BadMessageCloses(r: Room, s: Socket, m: Message, now: real)
    requires SocketsOk(r) && s in r.open && (m.Text? || |m.frame| > 65537)
    ensures
      var t := Step(r, Arrives(s, m, now));
      if r.open[s].Phone? || r.open[s].Data? then
        Closed(r, t, {s}) && t == r.(open := t.open, closing := t.closing) && NoneCame(r, t)
      else t == r
  {
  }

  /** A control is not listened to. */
  lemma ControlIsIgnored(r: Room, s: Socket, m: Message, now: real)
    requires s in r.open && (r.open[s].Control? || r.open[s].Rejected?)
    ensures Step(r, Arrives(s, m, now)) == r
  {
  }

  /** The tokens that a connection has left when a frame comes at `now`. */
  function Tokens(r: Room, id: Id, now: real): real {
    if id !in r.buckets then 300.0
    else
      var tokens := r.buckets[id].tokens + (now - r.buckets[id].updatedAt) / 1000.0 * 100.0;
      if tokens > 300.0 then 300.0 else tokens
  }

  /** The call is entered in the connection's bucket, and takes a token if there is a whole one. */
  ghost predicate Spent(r: Room, t: Room, id: Id, now: real) {
    && id in t.buckets && t.buckets - {id} == r.buckets - {id}
    && t.buckets[id].updatedAt == now
    && t.buckets[id].tokens == Tokens(r, id, now) - (if Tokens(r, id, now) >= 1.0 then 1.0 else 0.0)
    && t.ids == r.ids && t.cleared == r.cleared
  }

  ghost predicate Rejects(r: Room, t: Room, s: Socket) {
    && Closed(r, t, {s}) && NoneCame(r, t)
    && t.sent == r.sent && t.buffers == r.buffers && t.arrived == r.arrived
  }

  ghost predicate TakesIn(r: Room, t: Room, s: Socket, id: Id, frame: Frame) {
    t.open == r.open && t.closing == r.closing && t.arrived == r.arrived + [Entry(s, Phone(id), Binary(frame))]
  }

  /** Without a token the phone is closed. */
  lemma FrameWithoutToken(r: Room, s: Socket, id: Id, frame: Frame, now: real)
    requires SocketsOk(r) && s in r.open && r.open[s] == Phone(id) && |frame| <= 65537
    requires Tokens(r, id, now) < 1.0
    ensures var t := Step(r, Arrives(s, Payload(frame), now)); Spent(r, t, id, now) && Rejects(r, t, s)
  {
    TakenTokens(r, id, now);
  }

  /** With one, the frame goes to the open data socket. */
  lemma FrameIsPassedOn(r: Room, s: Socket, id: Id, frame: Frame, now: real, d: Socket)
    requires SocketsOk(r) && s in r.open && r.open[s] == Phone(id) && |frame| <= 65537
    requires Tokens(r, id, now) >= 1.0 && d in r.open && r.open[d] == Data(id)
    ensures
      var t := Step(r, Arrives(s, Payload(frame), now));
      && Spent(r, t, id, now) && TakesIn(r, t, s, id, frame)
      && t.sent == r.sent + [Entry(d, Data(id), Binary(frame))] && t.buffers == r.buffers
  {
    TakenTokens(r, id, now);
    assert d in Sockets(r.open, Data(id)) && AtMostOne(r.open, Data(id));
  }

  /** Without one it is kept, up to 16 frames and 262144 bytes; beyond that the phone is closed. */
  lemma FrameIsKept(r: Room, s: Socket, id: Id, frame: Frame, now: real)
    requires SocketsOk(r) && s in r.open && r.open[s] == Phone(id) && |frame| <= 65537
    requires Tokens(r, id, now) >= 1.0 && forall d :: d in r.open ==> r.open[d] != Data(id)
    ensures
      var t := Step(r, Arrives(s, Payload(frame), now));
      var kept := if id in r.buffers then r.buffers[id] else Buffer([], 0);
      && Spent(r, t, id, now)
      && if |kept.frames| < 16 && kept.bytes + |frame| <= 262144 then
           && TakesIn(r, t, s, id, frame) && t.sent == r.sent
           && t.buffers == r.buffers[id := Buffer(kept.frames + [frame], kept.bytes + |frame|)]
         else Rejects(r, t, s)
  {
    TakenTokens(r, id, now);
    assert Sockets(r.open, Data(id)) == {};
  }

  lemma TakenTokens(r: Room, id: Id, now: real)
    ensures
      var taken := Take(PHONE_POLICY, BucketOf(r, id, now), now);
      && taken.1 == (Tokens(r, id, now) >= 1.0) && taken.0.updatedAt == now
      && taken.0.tokens == Tokens(r, id, now) - (if taken.1 then 1.0 else 0.0)
    ensures Taken(r, id, now).buckets - {id} == r.buckets - {id}
  {
  }

  /** A frame of a data socket goes to its phone, if that is open. */
  lemma DataFrame(r: Room, s: Socket, id: Id, frame: Frame, now: real)
    requires SocketsOk(r) && s in r.open && r.open[s] == Data(id) && |frame| <= 65537
    ensures
      var t := Step(r, Arrives(s, Payload(frame), now));
      && t == r.(sent := t.sent, arrived := r.arrived + [Entry(s, Data(id), Binary(frame))])
      && (forall p :: p in r.open && r.open[p] == Phone(id) ==>
            t.sent == r.sent + [Entry(p, Phone(id), Binary(frame))])
      && ((forall p :: p in r.open ==> r.open[p] != Phone(id)) ==> t.sent == r.sent)
  {
    OneCopy(r, Phone(id), Binary(frame));
  }

  /** What is sent to the sockets of a role, of which at most one is open. */
  lemma OneCopy(r: Room, role: Attachment, packet: Packet)
    requires AtMostOne(r.open, role)
    ensures forall s :: s in r.open && r.open[s] == role ==>
              Broadcast(r, Sockets(r.open, role), packet).sent == r.sent + [Entry(s, role, packet)]
    ensures (forall s :: s in r.open ==> r.open[s] != role) ==>
              Broadcast(r, Sockets(r.open, role), packet).sent == r.sent
  {
    forall s | s in r.open && r.open[s] == role
      ensures Broadcast(r, Sockets(r.open, role), packet).sent == r.sent + [Entry(s, role, packet)]
    {
      assert s in Sockets(r.open, role);
      assert Sockets(r.open, role) == {s};
      assert First({s}) == s && {s} - {s} == {};
      assert Copies(r.open, {s} - {s}, packet) == [];
    }
  }

  // -------------------------------------------------------------- close events

  /** What the socket of a close event was. */
  function RoleOf(r: Room, s: Socket): Attachment
    requires s in r.open || s in r.closing
  {
    if s in r.open then r.open[s] else r.closing[s]
  }

  /** Of the other sockets exactly those in `ss` are closed, and the socket itself is forgotten. */
  ghost predicate Left(r: Room, t: Room, s: Socket, ss: set<Socket>) {
    && s !in t.open && s !in t.closing && NoneCame(r, t)
    && (forall k :: k in r.open && k != s ==> if k in ss then Shut(r, t, k) else Stays(r, t, k))
    && (forall k :: k in r.closing && k != s ==> k in t.closing && t.closing[k] == r.closing[k])
  }

  /** The last control leaves: every phone and data socket is closed and nothing is kept. */
  lemma LastControlLeaves(r: Room, s: Socket)
    requires SocketsOk(r) && (s in r.open || s in r.closing) && RoleOf(r, s) == Control
    requires forall k :: k in r.open && k != s ==> r.open[k] != Control
    ensures
      var t := Step(r, Closes(s));
      && Left(r, t, s, set k | k in r.open && (r.open[k].Phone? || r.open[k].Data?))
      && t.buffers == map[] && t.cleared == r.ids
      && t.sent == r.sent && t.arrived == r.arrived && t.buckets == r.buckets && t.ids == r.ids
  {
    LastControlClears(r, s);
    var ss := set k | k in r.open && (r.open[k].Phone? || r.open[k].Data?);
    assert PhonesAndData(Gone(r, s).open) == ss;
    GoneThenClosed(r, s, ss);
    LeftSockets(r, Close(Gone(r, s), ss), AllCleared(Gone(r, s)), s, ss);
  }

  lemma GoneThenClosed(r: Room, s: Socket, ss: set<Socket>)
    requires SocketsOk(r) && (s in r.open || s in r.closing)
    ensures Left(r, Close(Gone(r, s), ss), s, ss)
  {
  }

  lemma LeftSockets(r: Room, a: Room, b: Room, s: Socket, ss: set<Socket>)
    requires Left(r, a, s, ss) && a.open == b.open && a.closing == b.closing && a.next == b.next
    ensures Left(r, b, s, ss)
  {
  }

  lemma LastControlClears(r: Room, s: Socket)
    requires (s in r.open || s in r.closing) && RoleOf(r, s) == Control
    requires forall k :: k in r.open && k != s ==> r.open[k] != Control
    ensures OnClose(r, s) == AllCleared(Gone(r, s))
  {
    assert Sockets(Gone(r, s).open, Control) == {};
  }

  /** A phone leaves: its data sockets are closed and its tables are emptied. */
  lemma PhoneLeaves(r: Room, s: Socket, id: Id)
    requires SocketsOk(r) && (s in r.open || s in r.closing) && RoleOf(r, s) == Phone(id)
    ensures
      var t := Step(r, Closes(s));
      && Left(r, t, s, set k | k in r.open && r.open[k] == Data(id))
      && t.buckets == r.buckets - {id} && t.buffers == r.buffers - {id} && t.cleared == r.cleared + {id}
      && t.arrived == r.arrived && t.ids == r.ids
  {
  }

  /** And the control is told, if one is open. */
  lemma PhoneLeavingIsTold(r: Room, s: Socket, id: Id)
    requires SocketsOk(r) && (s in r.open || s in r.closing) && RoleOf(r, s) == Phone(id)
    ensures
      var t := Step(r, Closes(s));
      && (forall c :: c in r.open && r.open[c] == Control ==>
            t.sent == r.sent + [Entry(c, Control, Disconnected(id))])
      && ((forall c :: c in r.open ==> r.open[c] != Control) ==> t.sent == r.sent)
  {
    var g := Gone(r, s);
    var d := Close(g, Sockets(g.open, Data(id)));
    var f := d.(buckets := r.buckets - {id}, buffers := r.buffers - {id}, cleared := r.cleared + {id});
    assert Step(r, Closes(s)) == Broadcast(f, Sockets(f.open, Control), Disconnected(id));
    ControlsStay(r, f, s, id);
    OneCopy(f, Control, Disconnected(id));
  }

  lemma ControlsStay(r: Room, f: Room, s: Socket, id: Id)
    requires SocketsOk(r) && (s in r.open || s in r.closing) && RoleOf(r, s) == Phone(id)
    requires f.open == (r.open - {s}) - Sockets(r.open - {s}, Data(id))
    ensures Sockets(f.open, Control) == Sockets(r.open, Control) && AtMostOne(f.open, Control)
    ensures forall c :: c in r.open && r.open[c] == Control <==> c in f.open && f.open[c] == Control
  {
    assert AtMostOne(r.open, Control);
  }

  /** A data socket leaves: its phone is closed. */
  lemma DataLeaves(r: Room, s: Socket, id: Id)
    requires SocketsOk(r) && (s in r.open || s in r.closing) && RoleOf(r, s) == Data(id)
    ensures
      var t := Step(r, Closes(s));
      && Left(r, t, s, set k | k in r.open && r.open[k] == Phone(id))
      && t == r.(open := t.open, closing := t.closing)
  {
  }

  /** Any other close event only forgets its socket. */
  lemma OthersLeave(r: Room, s: Socket)
    requires SocketsOk(r) && (s in r.open || s in r.closing)
    requires RoleOf(r, s) == Rejected
             || (RoleOf(r, s) == Control && exists k :: k in r.open && k != s && r.open[k] == Control)
    ensures Step(r, Closes(s)) == r.(open := r.open - {s}, closing := r.closing - {s})
  {
    if k :| k in r.open && k != s && r.open[k] == Control { assert k in Sockets(Gone(r, s).open, Control); }
  }

  // ------------------------------------------------------------------ over runs

  /** The event ends every connection: a new control, or the last one leaving. */
  predicate EndsAll(r: Room, e: Event) {
    || e.ControlOpens?
    || (e.Closes? && (e.socket in r.open || e.socket in r.closing) && RoleOf(r, e.socket) == Control
        && forall k | k in r.open && k != e.socket :: r.open[k] != Control)
  }

  lemma EndsAllEnds(r: Room, e: Event, id: Id)
    requires SocketsOk(r) && Possible(r, e) && EndsAll(r, e) && id in r.ids
    ensures Ended(Step(r, e), id)
  {
    if e.ControlOpens? { ControlComes(r); } else { LastControlLeaves(r, e.socket); }
  }

  lemma EndsOrEnded(r: Room, e: Event, id: Id)
    requires Inv(r) && Possible(r, e) && (Ended(r, id) || (EndsAll(r, e) && id in r.ids))
    ensures Ended(Step(r, e), id)
  {
    if Ended(r, id) { EndedStays(r, e, id); } else { EndsAllEnds(r, e, id); }
  }

  lemma EndsNext(events: seq<Event>, rooms: seq<Room>, id: Id, k: nat)
    requires IsRun(events, rooms) && k < |events|
    requires Ended(rooms[k], id) || (EndsAll(rooms[k], events[k]) && id in rooms[k].ids)
    ensures Ended(rooms[k + 1], id)
  {
    StepOf(events, rooms, k);
    EndsOrEnded(rooms[k], events[k], id);
  }

  /** No connection from before such an event has an open socket in any later state. */
  lemma {:induction false} OldConnectionsEnd(events: seq<Event>, rooms: seq<Room>, id: Id, i: nat, k: nat)
    requires IsRun(events, rooms) && i < k <= |events| && EndsAll(rooms[i], events[i]) && id in rooms[i].ids
    ensures Ended(rooms[k], id)
    decreases k
  {
    if i < k - 1 { OldConnectionsEnd(events, rooms, id, i, k - 1); }
    EndsNext(events, rooms, id, k - 1);
  }
}
