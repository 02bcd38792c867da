/**
 The class of the source.  Each handler changes the fields step by step and is proved to do what
 the protocol's step says.  `sent` is the wire; the ghost fields are history.
 */
module RelayRooms {
  import opened Basics
  import opened TokenBuckets
  import opened RelayProtocol

  class RelayRoom {
    var open: map<Socket, Attachment>
    var closing: map<Socket, Attachment>
    var next: Socket
    var buckets: map<Id, Bucket>
    var buffers: map<Id, Buffer>
    var sent: seq<Entry>
    ghost var arrived: seq<Entry>
    ghost var calls: map<Id, seq<real>>
    /** The ids drawn so far: a random id is taken never to repeat one. */
    var ids: set<Id>
    ghost var cleared: set<Id>

    ghost function View(): Room
      reads this
    {
      Room(open, closing, next, buckets, buffers, sent, arrived, calls, ids, cleared)
    }

    constructor ()
      ensures View() == INITIAL
    {
      open, closing, next, buckets, buffers, sent := map[], map[], 0, map[], map[], [];
      arrived, calls, ids, cleared := [], map[], {}, {};
    }

    /** `safeClose` on every socket of a list. */
    method CloseAll(ss: set<Socket>)
      modifies this
      ensures View() == Close(old(View()), ss)
    {
      var rest := ss;
      while rest != {}
        invariant rest <= ss && View() == Close(old(View()), ss - rest)
      {
        var s := First(rest);
        CloseOneMore(old(View()), ss - rest, s);
        assert ss - rest + {s} == ss - (rest - {s});
        if s in open {
          closing := closing[s := open[s]];
          open := open - {s};
        }
        rest := rest - {s};
      }
      assert ss - rest == ss;
    }

    method AcceptSocket(role: Attachment)
      modifies this
      ensures View() == Accept(old(View()), role)
    {
      open := open[next := role];
      next := next + 1;
    }

    method Send(s: Socket, packet: Packet)
      requires s in open
      modifies this`sent
      ensures View() == Deliver(old(View()), s, packet)
    {
      sent := sent + [Entry(s, open[s], packet)];
    }

    method SendToAll(ss: set<Socket>, packet: Packet)
      requires ss <= open.Keys
      modifies this`sent
      ensures View() == Broadcast(old(View()), ss, packet)
    {
      var rest := ss;
      while rest != {}
        invariant rest <= ss && sent + Copies(open, rest, packet) == old(sent) + Copies(open, ss, packet)
      {
        var s := First(rest);
        assert Copies(open, rest, packet) == [Entry(s, open[s], packet)] + Copies(open, rest - {s}, packet);
        Send(s, packet);
        rest := rest - {s};
      }
      assert sent + [] == sent;
    }

    method HandleControl()
      modifies this
      ensures View() == OpenControl(old(View()))
    {
      CloseAll(Sockets(open, Control));
      CloseAll(PhonesAndData(open));
      ControlsAreOthers(old(open));
      CloseTwice(old(View()), Sockets(old(open), Control), PhonesAndData(old(open)));
      buffers := map[];
      cleared := ids;
      AcceptSocket(Control);
    }

    method HandlePhone(id: Id, now: real)
      modifies this
      ensures View() == OpenPhone(old(View()), id, now)
    {
      var controls := Sockets(open, Control);
      if controls == {} || |Phones(open)| >= MAX_PHONES_PER_ROOM {
        AcceptSocket(Rejected);
        CloseAll(Sockets(open, Rejected));
        return;
      }
      AcceptSocket(Phone(id));
      buckets := buckets[id := Bucket(PHONE_POLICY.burst, now)];
      calls, ids := calls[id := [now]], ids + {id};
      Send(First(controls), Connected(id));
    }

    method HandleData(id: Id) returns (found: bool)
      requires next !in open
      modifies this
      ensures found <==> Sockets(old(open), Phone(id)) != {}
      ensures View() == OpenData(old(View()), id)
    {
      if Sockets(open, Phone(id)) == {} { return false; }
      CloseAll(Sockets(open, Data(id)));
      var data := next;
      AcceptSocket(Data(id));
      ghost var r := View();
      var buffered := if id in buffers then buffers[id].frames else [];
      buffers := buffers - {id};
      for i := 0 to |buffered|
        invariant buffers == old(buffers) - {id}
        invariant View() == r.(buffers := buffers, sent := r.sent + Entries(data, Data(id), buffered[..i]))
      {
        assert Entries(data, Data(id), buffered[..i + 1])
          == Entries(data, Data(id), buffered[..i]) + [Entry(data, Data(id), Binary(buffered[i]))];
        Send(data, Binary(buffered[i]));
      }
      assert buffered[..|buffered|] == buffered;
      assert r.(buffers := buffers) == Accept(Replaced(old(View()), id), Data(id));
      found := true;
    }

    method HandleMessage(s: Socket, m: Message, now: real)
      requires s in open
      modifies this
      ensures View() == OnMessage(old(View()), s, m, now)
    {
      var role := open[s];
      if role.Control? || role.Rejected? { return; }
      if BadFrame(m) { CloseAll({s}); return; }
      if role.Phone? {
        HandlePhoneFrame(s, role.id, m.frame, now);
      } else {
        SendToAll(Sockets(open, Phone(role.id)), Binary(m.frame));
        arrived := arrived + [Entry(s, role, Binary(m.frame))];
      }
    }

    method TakeToken(id: Id, now: real) returns (granted: bool)
      modifies this`buckets, this`calls
      ensures granted <==> Take(PHONE_POLICY, BucketOf(old(View()), id, now), now).1
      ensures View() == Taken(old(View()), id, now)
    {
      ghost var history := CallsOf(View(), id, now);
      if id !in buckets { buckets := buckets[id := Bucket(PHONE_POLICY.burst, now)]; }
      var taken := Take(PHONE_POLICY, buckets[id], now);
      buckets := buckets[id := taken.0];
      calls := calls[id := history + [now]];
      granted := taken.1;
    }

    method HandlePhoneFrame(s: Socket, id: Id, frame: Frame, now: real)
      requires s in open && open[s] == Phone(id)
      modifies this
      ensures View() == FromPhone(old(View()), s, id, frame, now)
    {
      var granted := TakeToken(id, now);
      if !granted { CloseAll({s}); return; }
      if Sockets(open, Data(id)) != {} {
        Send(First(Sockets(open, Data(id))), Binary(frame));
        arrived := arrived + [Entry(s, Phone(id), Binary(frame))];
        return;
      }
      var buffer := if id in buffers then buffers[id] else Buffer([], 0);
      if |buffer.frames| >= MAX_BUFFERED_FRAMES || buffer.bytes + |frame| > MAX_BUFFERED_BYTES {
        CloseAll({s});
        return;
      }
      buffers := buffers[id := Buffer(buffer.frames + [frame], buffer.bytes + |frame|)];
      arrived := arrived + [Entry(s, Phone(id), Binary(frame))];
    }

    /** `closed`: the socket is gone for good, whoever closed it. */
    method HandleClose(s: Socket)
      requires s in open || s in closing
      modifies this
      ensures View() == OnClose(old(View()), s)
    {
      var role := if s in open then open[s] else closing[s];
      open, closing := open - {s}, closing - {s};
      match role {
        case Rejected =>
        case Control =>
          if Sockets(open, Control) != {} { return; }
          CloseAll(PhonesAndData(open));
          buffers := map[];
          cleared := ids;
        case Phone(id) =>
          buckets, buffers := buckets - {id}, buffers - {id};
          cleared := cleared + {id};
          CloseAll(Sockets(open, Data(id)));
          SendToAll(Sockets(open, Control), Disconnected(id));
        case Data(id) =>
          CloseAll(Sockets(open, Phone(id)));
      }
    }

    /** One event. */
    method Handle(e: Event)
      requires Inv(View()) && Possible(View(), e)
      modifies this
      ensures Inv(View()) && View() == Step(old(View()), e)
    {
      StepKeeps(View(), e);
      match e {
        case ControlOpens => HandleControl();
        case PhoneOpens(id, now) => HandlePhone(id, now);
        case DataOpens(id) => var _ := HandleData(id);
        case Arrives(s, m, now) => HandleMessage(s, m, now);
        case Closes(s) => HandleClose(s);
      }
    }
  }

  lemma CloseOneMore(r: Room, ss: set<Socket>, s: Socket)
    requires s !in ss
    ensures
      var c := Close(r, ss);
      Close(r, ss + {s}) == if s in c.open then c.(open := c.open - {s}, closing := c.closing[s := c.open[s]]) else c
  {
    var c := Close(r, ss);
    assert r.open - (ss + {s}) == c.open - {s};
    if s !in c.open { assert c.open - {s} == c.open; }
    ThoseAndOne(r.open, ss, s);
  }

  lemma ThoseAndOne(open: OpenSockets, ss: set<Socket>, s: Socket)
    ensures Those(open, ss + {s}) == if s in open then Those(open, ss)[s := open[s]] else Those(open, ss)
  {
  }

  lemma CloseTwice(r: Room, a: set<Socket>, b: set<Socket>)
    ensures Close(Close(r, a), b) == Close(r, a + b)
  {
    assert (r.open - a) - b == r.open - (a + b);
    ThoseTwice(r.open, a, b);
    assert (r.closing + Those(r.open, a)) + Those(r.open - a, b)
      == r.closing + (Those(r.open, a) + Those(r.open - a, b));
  }

  lemma ThoseTwice(open: OpenSockets, a: set<Socket>, b: set<Socket>)
    ensures Those(open, a) + Those(open - a, b) == Those(open, a + b)
  {
  }

  lemma ControlsAreOthers(open: OpenSockets)
    ensures PhonesAndData(open - Sockets(open, Control)) == PhonesAndData(open)
  {
  }
}
