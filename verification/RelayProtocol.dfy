/**
 The relay room as a protocol: what each event does to the room, and what holds in every state
 it can reach.  A handler is one step, taken after its secret check.  A socket the room has
 closed is in `closing`: it delivers nothing more, and its close event comes later.
 */
module RelayProtocol {
  import opened Basics
  import opened TokenBuckets

  const MAX_FRAME_BYTES: nat := 2 + 65535
  const MAX_PHONES_PER_ROOM: nat := 8
  const MAX_BUFFERED_FRAMES: nat := 16
  const MAX_BUFFERED_BYTES: nat := 256 * 1024
  const PHONE_POLICY: Policy := Policy(100.0, 300.0)

  type Id = string
  type Socket = nat
  type Frame = Bytes

  datatype Attachment = Control | Phone(id: Id) | Data(id: Id) | Rejected

  datatype Packet = Binary(frame: Frame) | Connected(id: Id) | Disconnected(id: Id)

  datatype Message = Text | Payload(frame: Frame)

  /** A packet that went out on, or came in from, a socket. */
  datatype Entry = Entry(socket: Socket, role: Attachment, packet: Packet)

  datatype Buffer = Buffer(frames: seq<Frame>, bytes: nat)

  /**
   `open` is what `getWebSockets` returns.  `sent` and `arrived` are history: everything the room
   sent, and the frames it took in.  `calls` is each bucket's call history, `ids` every connection
   id handed out, `cleared` the ids whose connection the room has cleared.
   */
  datatype Room = Room(
    open: map<Socket, Attachment>, closing: map<Socket, Attachment>, next: Socket,
    buckets: map<Id, Bucket>, buffers: map<Id, Buffer>,
    sent: seq<Entry>, arrived: seq<Entry>, calls: map<Id, seq<real>>,
    ids: set<Id>, cleared: set<Id>)

  const INITIAL: Room := Room(map[], map[], 0, map[], map[], [], [], map[], {}, {})

  // ------------------------------------------------------------- small steps

  type OpenSockets = map<Socket, Attachment>

  function Sockets(open: OpenSockets, role: Attachment): set<Socket> {
    set s | s in open && open[s] == role
  }

  function Phones(open: OpenSockets): set<Socket> {
    set s | s in open && open[s].Phone?
  }

  function PhonesAndData(open: OpenSockets): set<Socket> {
    set s | s in open && (open[s].Phone? || open[s].Data?)
  }

  function Accept(r: Room, role: Attachment): Room {
    r.(open := r.open[r.next := role], next := r.next + 1)
  }

  function Close(r: Room, ss: set<Socket>): Room {
    r.(open := r.open - ss, closing := r.closing + Those(r.open, ss))
  }

  function Those(open: OpenSockets, ss: set<Socket>): OpenSockets {
    map s | s in open && s in ss :: open[s]
  }

  function Deliver(r: Room, s: Socket, packet: Packet): Room
    requires s in r.open
  {
    r.(sent := r.sent + [Entry(s, r.open[s], packet)])
  }

  function Entries(s: Socket, role: Attachment, frames: seq<Frame>): (es: seq<Entry>)
    ensures |es| == |frames|
  {
    seq(|frames|, i requires 0 <= i < |frames| => Entry(s, role, Binary(frames[i])))
  }

  function DeliverFrames(r: Room, s: Socket, frames: seq<Frame>): Room
    requires s in r.open
  {
    r.(sent := r.sent + Entries(s, r.open[s], frames))
  }

  lemma {:induction false} LeastExists(ss: set<Socket>, s: Socket)
    requires s in ss
    ensures exists least :: least in ss && forall t | t in ss :: least <= t
  {
    if t :| t in ss && t < s { LeastExists(ss, t); }
  }

  /** The socket accepted first. */
  function First(ss: set<Socket>): (s: Socket)
    requires ss != {}
    ensures s in ss
  {
    LeastExists(ss, var any :| any in ss; any);
    var s :| s in ss && forall t | t in ss :: s <= t;
    s
  }

  /** One copy for each socket, in the order they were accepted. */
  function Copies(open: OpenSockets, ss: set<Socket>, packet: Packet): seq<Entry>
    requires ss <= open.Keys
  {
    if ss == {} then []
    else [Entry(First(ss), open[First(ss)], packet)] + Copies(open, ss - {First(ss)}, packet)
  }

  function Broadcast(r: Room, ss: set<Socket>, packet: Packet): Room
    requires ss <= r.open.Keys
  {
    r.(sent := r.sent + Copies(r.open, ss, packet))
  }

  function Arrive(r: Room, s: Socket, frame: Frame): Room
    requires s in r.open
  {
    r.(arrived := r.arrived + [Entry(s, r.open[s], Binary(frame))])
  }

  // ---------------------------------------------------------------- handlers

  function OpenControl(r: Room): Room {
    var r1 := Close(r, Sockets(r.open, Control) + PhonesAndData(r.open));
    Accept(r1.(buffers := map[], cleared := r.ids), Control)
  }

  function Reject(r: Room): Room {
    var r1 := Accept(r, Rejected);
    Close(r1, Sockets(r1.open, Rejected))
  }

  function OpenPhone(r: Room, id: Id, now: real): Room {
    if Sockets(r.open, Control) == {} || |Phones(r.open)| >= MAX_PHONES_PER_ROOM then Reject(r)
    else
      var r1 := Accept(r, Phone(id));
      var r2 := r1.(buckets := r.buckets[id := Bucket(PHONE_POLICY.burst, now)],
                   calls := r.calls[id := [now]], ids := r.ids + {id});
      Deliver(r2, First(Sockets(r.open, Control)), Connected(id))
  }

  function Replaced(r: Room, id: Id): Room {
    Close(r, Sockets(r.open, Data(id))).(buffers := r.buffers - {id})
  }

  function OpenData(r: Room, id: Id): Room {
    if Sockets(r.open, Phone(id)) == {} then r
    else DeliverFrames(Accept(Replaced(r, id), Data(id)), r.next, BufferOf(r, id).frames)
  }

  predicate BadFrame(m: Message) {
    m.Text? || |m.frame| > MAX_FRAME_BYTES
  }

  function BucketOf(r: Room, id: Id, now: real): Bucket {
    if id in r.buckets then r.buckets[id] else Bucket(PHONE_POLICY.burst, now)
  }

  function CallsOf(r: Room, id: Id, now: real): seq<real> {
    if id in r.buckets && id in r.calls then r.calls[id] else [now]
  }

  function BufferOf(r: Room, id: Id): Buffer {
    if id in r.buffers then r.buffers[id] else Buffer([], 0)
  }

  predicate Full(b: Buffer, frame: Frame) {
    |b.frames| >= MAX_BUFFERED_FRAMES || b.bytes + |frame| > MAX_BUFFERED_BYTES
  }

  /** `take` on the connection's bucket. */
  function Taken(r: Room, id: Id, now: real): Room {
    r.(buckets := r.buckets[id := Take(PHONE_POLICY, BucketOf(r, id, now), now).0],
       calls := r.calls[id := CallsOf(r, id, now) + [now]])
  }

  function PassOn(r: Room, s: Socket, id: Id, frame: Frame): Room
    requires s in r.open && Sockets(r.open, Data(id)) != {}
  {
    Arrive(Deliver(r, First(Sockets(r.open, Data(id))), Binary(frame)), s, frame)
  }

  function Hold(r: Room, s: Socket, id: Id, frame: Frame): Room
    requires s in r.open
  {
    var b := BufferOf(r, id);
    Arrive(r.(buffers := r.buffers[id := Buffer(b.frames + [frame], b.bytes + |frame|)]), s, frame)
  }

  function FromPhone(r: Room, s: Socket, id: Id, frame: Frame, now: real): Room
    requires s in r.open
  {
    var t := Taken(r, id, now);
    if !Take(PHONE_POLICY, BucketOf(r, id, now), now).1 then Close(t, {s})
    else if Sockets(r.open, Data(id)) != {} then PassOn(t, s, id, frame)
    else if Full(BufferOf(r, id), frame) then Close(t, {s})
    else Hold(t, s, id, frame)
  }

  function ToPhone(r: Room, s: Socket, id: Id, frame: Frame): Room
    requires s in r.open
  {
    Arrive(Broadcast(r, Sockets(r.open, Phone(id)), Binary(frame)), s, frame)
  }

  function OnMessage(r: Room, s: Socket, m: Message, now: real): Room
    requires s in r.open
  {
    match r.open[s]
    case Control => r
    case Rejected => r
    case Phone(id) => if BadFrame(m) then Close(r, {s}) else FromPhone(r, s, id, m.frame, now)
    case Data(id) =>
      if BadFrame(m) then Close(r, {s})
      else ToPhone(r, s, id, m.frame)
  }

  function Gone(r: Room, s: Socket): Room {
    r.(open := r.open - {s}, closing := r.closing - {s})
  }

  /** Without a control, every connection is cleared. */
  function AllCleared(r: Room): Room {
    Close(r, PhonesAndData(r.open)).(buffers := map[], cleared := r.ids)
  }

  function OnClose(r: Room, s: Socket): Room
    requires s in r.open || s in r.closing
  {
    var role := if s in r.open then r.open[s] else r.closing[s];
    var r1 := Gone(r, s);
    match role
    case Rejected => r1
    case Control =>
      if Sockets(r1.open, Control) != {} then r1
      else AllCleared(r1)
    case Phone(id) =>
      var r2 := Close(r1, Sockets(r1.open, Data(id))).(
        buckets := r.buckets - {id}, buffers := r.buffers - {id}, cleared := r.cleared + {id});
      Broadcast(r2, Sockets(r2.open, Control), Disconnected(id))
    case Data(id) => Close(r1, Sockets(r1.open, Phone(id)))
  }

  // ------------------------------------------------------------------- runs

  datatype Event =
    | ControlOpens
    | PhoneOpens(id: Id, now: real)
    | DataOpens(id: Id)
    | Arrives(socket: Socket, message: Message, now: real)
    | Closes(socket: Socket)

  /** A random connection id was never handed out before; sockets behave as described above. */
  predicate Possible(r: Room, e: Event) {
    match e
    case PhoneOpens(id, _) => id !in r.ids
    case Arrives(s, _, _) => s in r.open
    case Closes(s) => s in r.open || s in r.closing
    case _ => true
  }

  function Step(r: Room, e: Event): Room
    requires Possible(r, e)
  {
    match e
    case ControlOpens => OpenControl(r)
    case PhoneOpens(id, now) => OpenPhone(r, id, now)
    case DataOpens(id) => OpenData(r, id)
    case Arrives(s, m, now) => OnMessage(r, s, m, now)
    case Closes(s) => OnClose(r, s)
  }

  ghost predicate IsRun(events: seq<Event>, rooms: seq<Room>) {
    && |rooms| == |events| + 1 && rooms[0] == INITIAL
    && forall i | 0 <= i < |events| :: Follows(events, rooms, i)
  }

  predicate Follows(events: seq<Event>, rooms: seq<Room>, i: nat)
    requires i < |events| && i + 1 < |rooms|
  {
    Possible(rooms[i], events[i]) && rooms[i + 1] == Step(rooms[i], events[i])
  }

  // -------------------------------------------------------------- invariant

  /** The frames of the entries with this role, in order. */
  function FramesOf(log: seq<Entry>, role: Attachment): seq<Frame> {
    if log == [] then []
    else
      var last := log[|log| - 1];
      FramesOf(log[..|log| - 1], role) + if last.role == role && last.packet.Binary? then [last.packet.frame] else []
  }

  function Size(frames: seq<Frame>): nat {
    if frames == [] then 0 else Size(frames[..|frames| - 1]) + |frames[|frames| - 1]|
  }

  predicate AtMostOne(open: OpenSockets, role: Attachment) {
    forall s, t | s in Sockets(open, role) && t in Sockets(open, role) :: s == t
  }

  ghost predicate Unique(open: OpenSockets) {
    forall role :: role != Rejected ==> AtMostOne(open, role)
  }

  /** The phone of a connection is closed for good. */
  ghost predicate NoneReturns(open: OpenSockets, closing: map<Socket, Attachment>) {
    forall s :: s in closing && closing[s].Phone? ==> Sockets(open, closing[s]) == {}
  }

  ghost predicate SocketsOk(r: Room) {
    && r.open.Keys !! r.closing.Keys
    && (forall s :: s in r.open || s in r.closing ==> s < r.next)
    && Unique(r.open)
    && NoneReturns(r.open, r.closing)
    && |Phones(r.open)| <= MAX_PHONES_PER_ROOM
  }

  /** Open phones only under an open control. */
  ghost predicate PhonesControlled(r: Room) {
    Phones(r.open) != {} ==> Sockets(r.open, Control) != {}
  }

  ghost predicate BuffersOk(r: Room) {
    && (forall id :: id in r.buffers ==>
         && |r.buffers[id].frames| <= MAX_BUFFERED_FRAMES && r.buffers[id].bytes <= MAX_BUFFERED_BYTES
         && r.buffers[id].bytes == Size(r.buffers[id].frames))
    && (forall s :: s in r.open && r.open[s].Data? ==> r.open[s].id !in r.buffers)
  }

  ghost predicate BucketsOk(r: Room) {
    forall id :: id in r.buckets ==>
      id in r.calls && r.calls[id] != [] && r.buckets[id] == After(PHONE_POLICY, r.calls[id])
  }

  ghost predicate IdsOk(r: Room) {
    && (forall s :: s in r.open && (r.open[s].Phone? || r.open[s].Data?) ==> r.open[s].id in r.ids)
    && (forall s :: s in r.open && r.open[s].Phone? ==> r.open[s].id in r.buckets && r.open[s].id !in r.cleared)
    && (forall s :: s in r.closing && (r.closing[s].Phone? || r.closing[s].Data?) ==> r.closing[s].id in r.ids)
    && (forall id :: id in r.buffers ==> id in r.ids && id !in r.cleared)
    && (forall id :: id in r.buckets ==> id in r.ids)
    && r.cleared <= r.ids
  }

  /**
   Per connection: until it is cleared, what was sent to the data sockets followed by what is
   buffered is exactly what arrived from the phone, in order and without duplicates; afterwards
   what was sent stays a prefix of it.
   */
  ghost predicate Ordered(r: Room, id: Id) {
    if id in r.cleared then FramesOf(r.sent, Data(id)) <= FramesOf(r.arrived, Phone(id))
    else FramesOf(r.arrived, Phone(id)) == FramesOf(r.sent, Data(id)) + BufferOf(r, id).frames
  }

  /** The other direction: an open phone has been sent exactly what its data sockets delivered. */
  ghost predicate Forwarded(r: Room, id: Id) {
    && FramesOf(r.sent, Phone(id)) <= FramesOf(r.arrived, Data(id))
    && (Sockets(r.open, Phone(id)) != {} || id !in r.ids ==>
         FramesOf(r.sent, Phone(id)) == FramesOf(r.arrived, Data(id)))
  }

  ghost predicate Shape(r: Room) {
    SocketsOk(r) && BuffersOk(r) && BucketsOk(r) && IdsOk(r)
  }

  ghost predicate Consistent(r: Room) {
    Shape(r) && forall id :: Ordered(r, id) && Forwarded(r, id)
  }

  ghost predicate Inv(r: Room) {
    Consistent(r) && PhonesControlled(r)
  }

  // ------------------------------------------------------------ log lemmas

  lemma {:induction false} FramesConcat(a: seq<Entry>, b: seq<Entry>, role: Attachment)
    ensures FramesOf(a + b, role) == FramesOf(a, role) + FramesOf(b, role)
  {
    if b == [] {
      assert a + b == a;
    } else {
      var b' := b[..|b| - 1];
      assert (a + b)[..|a + b| - 1] == a + b';
      FramesConcat(a, b', role);
    }
  }

  lemma {:induction false} FramesOfEntries(s: Socket, role: Attachment, frames: seq<Frame>, other: Attachment)
    ensures FramesOf(Entries(s, role, frames), other) == if other == role then frames else []
  {
    if frames != [] {
      var init, last := frames[..|frames| - 1], frames[|frames| - 1];
      FramesOfEntries(s, role, init, other);
      assert Entries(s, role, frames) == Entries(s, role, init) + [Entry(s, role, Binary(last))];
      assert frames == init + [last];
    }
  }

  /** A broadcast to the sockets of one role, of which there is at most one. */
  lemma FramesOfCopies(r: Room, role: Attachment, packet: Packet, other: Attachment)
    requires AtMostOne(r.open, role)
    ensures FramesOf(Copies(r.open, Sockets(r.open, role), packet), other)
            == if other == role && packet.Binary? && Sockets(r.open, role) != {} then [packet.frame] else []
  {
  }

  // ------------------------------------------------------ every step keeps it

  lemma SubsetSize<T>(a: set<T>, b: set<T>)
    requires a <= b
    ensures |a| <= |b|
  {
    assert b == a + (b - a);
  }

  lemma CloseUnique(r: Room, ss: set<Socket>)
    requires Unique(r.open)
    ensures Unique(Close(r, ss).open)
  {
    forall role | role != Rejected ensures AtMostOne(Close(r, ss).open, role) {
      assert AtMostOne(r.open, role);
      assert Sockets(Close(r, ss).open, role) <= Sockets(r.open, role);
    }
  }

  lemma CloseNoneReturns(r: Room, ss: set<Socket>)
    requires SocketsOk(r)
    ensures NoneReturns(Close(r, ss).open, Close(r, ss).closing)
  {
    var c := Close(r, ss);
    forall s | s in c.closing && c.closing[s].Phone? ensures Sockets(c.open, c.closing[s]) == {} {
      assert Sockets(c.open, c.closing[s]) == Sockets(r.open, c.closing[s]) - ss;
      if s in r.open && s in ss {
        assert AtMostOne(r.open, r.open[s]) && s in Sockets(r.open, r.open[s]);
      }
    }
  }

  lemma CloseShape(r: Room, ss: set<Socket>)
    requires Shape(r)
    ensures Shape(Close(r, ss))
  {
    CloseUnique(r, ss);
    CloseNoneReturns(r, ss);
    assert Phones(Close(r, ss).open) <= Phones(r.open);
    SubsetSize(Phones(Close(r, ss).open), Phones(r.open));
  }

  /** A role of which one more socket fits. */
  ghost predicate Fits(r: Room, role: Attachment) {
    match role
    case Control => Sockets(r.open, Control) == {}
    case Phone(id) =>
      && Sockets(r.open, role) == {} && |Phones(r.open)| < MAX_PHONES_PER_ROOM
      && id in r.ids && id in r.buckets && id !in r.cleared
      && forall s :: s in r.closing ==> r.closing[s] != role
    case Data(id) => Sockets(r.open, role) == {} && id in r.ids && id !in r.buffers
    case Rejected => true
  }

  lemma AcceptSockets(r: Room, role: Attachment)
    requires r.next !in r.open
    ensures forall other ::
              Sockets(Accept(r, role).open, other) == Sockets(r.open, other) + if other == role then {r.next} else {}
    ensures Phones(Accept(r, role).open) == Phones(r.open) + if role.Phone? then {r.next} else {}
  {
  }

  lemma AcceptUnique(r: Room, role: Attachment)
    requires r.next !in r.open && Unique(r.open) && (role != Rejected ==> Sockets(r.open, role) == {})
    ensures Unique(Accept(r, role).open)
  {
    forall other | other != Rejected ensures AtMostOne(Accept(r, role).open, other) {
      assert AtMostOne(r.open, other);
      assert Sockets(Accept(r, role).open, other) == Sockets(r.open, other) + if other == role then {r.next} else {};
    }
  }

  lemma AcceptSocketsOk(r: Room, role: Attachment)
    requires SocketsOk(r) && Fits(r, role)
    ensures SocketsOk(Accept(r, role))
  {
    AcceptUnique(r, role);
    AcceptPhones(r, role);
  }

  lemma AcceptPhones(r: Room, role: Attachment)
    requires r.next !in r.open && |Phones(r.open)| + (if role.Phone? then 1 else 0) <= MAX_PHONES_PER_ROOM
    ensures |Phones(Accept(r, role).open)| <= MAX_PHONES_PER_ROOM
  {
    AcceptSockets(r, role);
  }

  lemma AcceptShape(r: Room, role: Attachment)
    requires Shape(r) && Fits(r, role)
    ensures Shape(Accept(r, role))
  {
    AcceptSocketsOk(r, role);
    var a := Accept(r, role);
    forall s | s in a.open ensures a.open[s] == if s == r.next then role else r.open[s] {}
    assert BuffersOk(a);
    assert IdsOk(a);
  }

  /** Clearing every connection, as a new or a lost control does. */
  lemma ClearKeeps(r: Room, ss: set<Socket>)
    requires Consistent(r) && PhonesAndData(r.open) <= ss
    ensures
      var c := Close(r, ss).(buffers := map[], cleared := r.ids);
      Inv(c) && PhonesAndData(c.open) == {}
  {
    CloseShape(r, ss);
    var c := Close(r, ss).(buffers := map[], cleared := r.ids);
    assert Phones(c.open) == {};
    forall id ensures Ordered(c, id) && Forwarded(c, id) { ClearOrder(r, ss, id); }
  }

  lemma ClearOrder(r: Room, ss: set<Socket>, id: Id)
    requires Ordered(r, id) && Forwarded(r, id) && PhonesAndData(r.open) <= ss
    requires id in r.buffers ==> id in r.ids
    requires id in r.cleared ==> id in r.ids
    ensures
      var c := Close(r, ss).(buffers := map[], cleared := r.ids);
      Ordered(c, id) && Forwarded(c, id)
  {
  }

  lemma OpenControlKeeps(r: Room)
    requires Inv(r)
    ensures Inv(OpenControl(r))
  {
    var ss := Sockets(r.open, Control) + PhonesAndData(r.open);
    ClearKeeps(r, ss);
    CloseShape(r, ss);
    var c := Close(r, ss).(buffers := map[], cleared := r.ids);
    assert Sockets(c.open, Control) == {};
    AcceptShape(c, Control);
    AcceptSockets(c, Control);
    var a := Accept(c, Control);
    forall id ensures Ordered(a, id) && Forwarded(a, id) { assert Ordered(c, id) && Forwarded(c, id); }
  }

  lemma RejectOpens(r: Room)
    requires SocketsOk(r)
    ensures forall role :: role != Rejected ==> Sockets(Reject(r).open, role) == Sockets(r.open, role)
    ensures Phones(Reject(r).open) == Phones(r.open)
  {
  }

  lemma RejectKeeps(r: Room)
    requires Inv(r)
    ensures Inv(Reject(r))
  {
    RejectOpens(r);
    var a := Accept(r, Rejected);
    AcceptShape(r, Rejected);
    CloseShape(a, Sockets(a.open, Rejected));
    var c := Reject(r);
    forall id ensures Ordered(c, id) && Forwarded(c, id) { assert Ordered(r, id) && Forwarded(r, id); }
  }

  // Opening a phone.

  /** The id enters the tables, with a fresh bucket. */
  function Registered(r: Room, id: Id, now: real): Room {
    r.(buckets := r.buckets[id := Bucket(PHONE_POLICY.burst, now)], calls := r.calls[id := [now]], ids := r.ids + {id})
  }

  lemma RegisteredShape(r: Room, id: Id, now: real)
    requires Shape(r) && id !in r.ids
    ensures Shape(Registered(r, id, now))
  {
  }

  lemma NoSocketOf(r: Room, id: Id)
    requires IdsOk(r) && id !in r.ids
    ensures Sockets(r.open, Phone(id)) == {} && Sockets(r.open, Data(id)) == {}
    ensures id !in r.buffers && id !in r.cleared
  {
  }

  lemma SentShape(r: Room, sent: seq<Entry>, arrived: seq<Entry>)
    requires Shape(r)
    ensures Shape(r.(sent := sent, arrived := arrived))
  {
  }

  lemma OpenPhoneShape(r: Room, id: Id, now: real)
    requires Shape(r) && id !in r.ids && Sockets(r.open, Control) != {} && |Phones(r.open)| < MAX_PHONES_PER_ROOM
    ensures Shape(OpenPhone(r, id, now))
  {
    RegisteredShape(r, id, now);
    NoSocketOf(r, id);
    var a := Accept(Registered(r, id, now), Phone(id));
    AcceptShape(Registered(r, id, now), Phone(id));
    SentShape(a, OpenPhone(r, id, now).sent, a.arrived);
  }

  /** A note to the control changes no connection's frames. */
  lemma NoteFrames(log: seq<Entry>, e: Entry, role: Attachment)
    requires !e.packet.Binary?
    ensures FramesOf(log + [e], role) == FramesOf(log, role)
  {
  }

  lemma OpenPhoneOrder(r: Room, id: Id, now: real, other: Id)
    requires IdsOk(r) && r.next !in r.open && Ordered(r, other) && Forwarded(r, other)
    requires id !in r.ids && Sockets(r.open, Control) != {} && |Phones(r.open)| < MAX_PHONES_PER_ROOM
    ensures Ordered(OpenPhone(r, id, now), other) && Forwarded(OpenPhone(r, id, now), other)
  {
    var e := Entry(First(Sockets(r.open, Control)), Control, Connected(id));
    NoteFrames(r.sent, e, Data(other));
    NoteFrames(r.sent, e, Phone(other));
    if other != id { OpenPhoneOpens(r, id, now, other); }
  }

  lemma OpenPhoneOpens(r: Room, id: Id, now: real, other: Id)
    requires r.next !in r.open && Sockets(r.open, Control) != {}
             && |Phones(r.open)| < MAX_PHONES_PER_ROOM && other != id
    ensures Sockets(OpenPhone(r, id, now).open, Phone(other)) == Sockets(r.open, Phone(other))
  {
  }

  lemma OpenPhoneKeeps(r: Room, id: Id, now: real)
    requires Inv(r) && id !in r.ids
    ensures Inv(OpenPhone(r, id, now))
  {
    if Sockets(r.open, Control) == {} || |Phones(r.open)| >= MAX_PHONES_PER_ROOM {
      RejectKeeps(r);
    } else {
      OpenPhoneShape(r, id, now);
      AcceptSockets(r, Phone(id));
      forall other ensures Ordered(OpenPhone(r, id, now), other) && Forwarded(OpenPhone(r, id, now), other) {
        assert Ordered(r, other) && Forwarded(r, other);
        OpenPhoneOrder(r, id, now, other);
      }
    }
  }

  // Opening a data socket.

  lemma ReplacedShape(r: Room, id: Id)
    requires Shape(r)
    ensures Shape(Replaced(r, id)) && Sockets(Replaced(r, id).open, Data(id)) == {}
  {
    CloseShape(r, Sockets(r.open, Data(id)));
  }

  lemma OpenDataShape(r: Room, id: Id)
    requires Shape(r) && Sockets(r.open, Phone(id)) != {}
    ensures Shape(OpenData(r, id))
  {
    PhoneIsLive(r, id);
    ReplacedShape(r, id);
    var a := Accept(Replaced(r, id), Data(id));
    AcceptShape(Replaced(r, id), Data(id));
    SentShape(a, OpenData(r, id).sent, a.arrived);
  }

  lemma PhoneIsLive(r: Room, id: Id)
    requires IdsOk(r) && Sockets(r.open, Phone(id)) != {}
    ensures id in r.ids && id in r.buckets && id !in r.cleared
  {
  }

  lemma OpenDataOpens(r: Room, id: Id, role: Attachment)
    requires r.next !in r.open && Sockets(r.open, Phone(id)) != {} && role != Data(id)
    ensures Sockets(OpenData(r, id).open, role) == Sockets(r.open, role)
    ensures Phones(OpenData(r, id).open) == Phones(r.open)
  {
  }

  /** The buffered frames go out, in order. */
  lemma FlushFrames(sent: seq<Entry>, s: Socket, id: Id, frames: seq<Frame>, role: Attachment)
    ensures FramesOf(sent + Entries(s, Data(id), frames), role)
            == FramesOf(sent, role) + if role == Data(id) then frames else []
  {
    FramesConcat(sent, Entries(s, Data(id), frames), role);
    FramesOfEntries(s, Data(id), frames, role);
  }

  lemma OpenDataOrder(r: Room, id: Id, other: Id)
    requires IdsOk(r) && r.next !in r.open && Ordered(r, other) && Forwarded(r, other)
             && Sockets(r.open, Phone(id)) != {}
    ensures Ordered(OpenData(r, id), other) && Forwarded(OpenData(r, id), other)
  {
    PhoneIsLive(r, id);
    OpenDataSends(r, id, other);
    OpenDataOpens(r, id, Phone(other));
  }

  /** The buffered frames go to this connection's data socket, and to nobody else. */
  lemma OpenDataSends(r: Room, id: Id, other: Id)
    requires r.next !in r.open && Sockets(r.open, Phone(id)) != {}
    ensures
      var t := OpenData(r, id);
      && FramesOf(t.sent, Data(other))
           == FramesOf(r.sent, Data(other)) + (if other == id then BufferOf(r, id).frames else [])
      && FramesOf(t.sent, Phone(other)) == FramesOf(r.sent, Phone(other))
      && t.arrived == r.arrived && t.buffers == r.buffers - {id} && t.cleared == r.cleared && t.ids == r.ids
  {
    FlushFrames(r.sent, r.next, id, BufferOf(r, id).frames, Data(other));
    FlushFrames(r.sent, r.next, id, BufferOf(r, id).frames, Phone(other));
  }

  lemma OpenDataKeeps(r: Room, id: Id)
    requires Inv(r)
    ensures Inv(OpenData(r, id))
  {
    if Sockets(r.open, Phone(id)) != {} {
      OpenDataShape(r, id);
      OpenDataOpens(r, id, Control);
      forall other ensures Ordered(OpenData(r, id), other) && Forwarded(OpenData(r, id), other) {
        assert Ordered(r, other) && Forwarded(r, other);
        OpenDataOrder(r, id, other);
      }
    }
  }

  // Messages.

  lemma TakenKeeps(r: Room, id: Id, now: real)
    requires Inv(r) && id in r.ids
    ensures Inv(Taken(r, id, now))
  {
    TakenBuckets(r, id, now);
    forall other ensures Ordered(Taken(r, id, now), other) && Forwarded(Taken(r, id, now), other) {
      assert Ordered(r, other) && Forwarded(r, other);
    }
  }

  lemma TakenBuckets(r: Room, id: Id, now: real)
    requires BucketsOk(r)
    ensures BucketsOk(Taken(r, id, now))
  {
    var calls := CallsOf(r, id, now) + [now];
    assert calls[..|calls| - 1] == CallsOf(r, id, now);
    assert After(PHONE_POLICY, calls) == Take(PHONE_POLICY, BucketOf(r, id, now), now).0;
  }

  lemma PassOnOrder(r: Room, s: Socket, id: Id, frame: Frame, other: Id)
    requires BuffersOk(r) && IdsOk(r) && s in r.open && r.open[s] == Phone(id) && Sockets(r.open, Data(id)) != {}
    requires Ordered(r, other) && Forwarded(r, other)
    ensures Ordered(PassOn(r, s, id, frame), other) && Forwarded(PassOn(r, s, id, frame), other)
  {
  }

  lemma PassOnKeeps(r: Room, s: Socket, id: Id, frame: Frame)
    requires Inv(r) && s in r.open && r.open[s] == Phone(id) && Sockets(r.open, Data(id)) != {}
    ensures Inv(PassOn(r, s, id, frame))
  {
    var p := PassOn(r, s, id, frame);
    SentShape(r, p.sent, p.arrived);
    forall other ensures Ordered(p, other) && Forwarded(p, other) {
      assert Ordered(r, other) && Forwarded(r, other);
      PassOnOrder(r, s, id, frame, other);
    }
  }

  lemma SizeNext(frames: seq<Frame>, frame: Frame)
    ensures Size(frames + [frame]) == Size(frames) + |frame|
  {
  }

  lemma HoldShape(r: Room, s: Socket, id: Id, frame: Frame)
    requires Shape(r) && s in r.open && r.open[s] == Phone(id)
    requires Sockets(r.open, Data(id)) == {} && !Full(BufferOf(r, id), frame)
    ensures Shape(Hold(r, s, id, frame))
  {
    SizeNext(BufferOf(r, id).frames, frame);
    forall d | d in r.open && r.open[d].Data? ensures r.open[d].id != id {
      assert d !in Sockets(r.open, Data(id));
    }
  }

  lemma HoldOrder(r: Room, s: Socket, id: Id, frame: Frame, other: Id)
    requires IdsOk(r) && s in r.open && r.open[s] == Phone(id)
    requires Ordered(r, other) && Forwarded(r, other)
    ensures Ordered(Hold(r, s, id, frame), other) && Forwarded(Hold(r, s, id, frame), other)
  {
  }

  lemma HoldKeeps(r: Room, s: Socket, id: Id, frame: Frame)
    requires Inv(r) && s in r.open && r.open[s] == Phone(id)
    requires Sockets(r.open, Data(id)) == {} && !Full(BufferOf(r, id), frame)
    ensures Inv(Hold(r, s, id, frame))
  {
    HoldShape(r, s, id, frame);
    forall other ensures Ordered(Hold(r, s, id, frame), other) && Forwarded(Hold(r, s, id, frame), other) {
      assert Ordered(r, other) && Forwarded(r, other);
      HoldOrder(r, s, id, frame, other);
    }
  }

  lemma BroadcastFrames(r: Room, role: Attachment, packet: Packet, other: Attachment)
    requires AtMostOne(r.open, role)
    ensures FramesOf(Broadcast(r, Sockets(r.open, role), packet).sent, other)
            == FramesOf(r.sent, other) + if other == role && packet.Binary? && Sockets(r.open, role) != {}
              then [packet.frame] else []
  {
    FramesConcat(r.sent, Copies(r.open, Sockets(r.open, role), packet), other);
    FramesOfCopies(r, role, packet, other);
  }

  lemma FromDataOrder(r: Room, s: Socket, id: Id, frame: Frame, other: Id)
    requires AtMostOne(r.open, Phone(id)) && id in r.ids && s in r.open && r.open[s] == Data(id)
    requires Ordered(r, other) && Forwarded(r, other)
    ensures Ordered(ToPhone(r, s, id, frame), other) && Forwarded(ToPhone(r, s, id, frame), other)
  {
    var d := ToPhone(r, s, id, frame);
    var a := Entry(s, Data(id), Binary(frame));
    assert FramesOf(d.arrived, Phone(other)) == FramesOf(r.arrived, Phone(other));
    assert FramesOf(d.sent, Data(other)) == FramesOf(r.sent, Data(other)) by {
      BroadcastFrames(r, Phone(id), Binary(frame), Data(other));
    }
    assert Ordered(d, other);
    BroadcastFrames(r, Phone(id), Binary(frame), Phone(other));
  }

  /** Closing sockets that are no controls. */
  lemma CloseKeeps(r: Room, ss: set<Socket>)
    requires Inv(r) && Sockets(r.open, Control) !! ss
    ensures Inv(Close(r, ss))
  {
    CloseShape(r, ss);
    assert Sockets(r.open, Control) - ss == Sockets(r.open, Control);
    forall id ensures Ordered(Close(r, ss), id) && Forwarded(Close(r, ss), id) {
      assert Ordered(r, id) && Forwarded(r, id);
    }
  }

  lemma OnMessageKeeps(r: Room, s: Socket, m: Message, now: real)
    requires Inv(r) && s in r.open
    ensures Inv(OnMessage(r, s, m, now))
  {
    match r.open[s] {
      case Control =>
      case Rejected =>
      case Phone(id) =>
        if BadFrame(m) { CloseKeeps(r, {s}); } else { FromPhoneKeeps(r, s, id, m.frame, now); }
      case Data(id) =>
        if BadFrame(m) { CloseKeeps(r, {s}); } else { FromDataKeeps(r, s, id, m.frame); }
    }
  }

  lemma FromPhoneKeeps(r: Room, s: Socket, id: Id, frame: Frame, now: real)
    requires Inv(r) && s in r.open && r.open[s] == Phone(id)
    ensures Inv(FromPhone(r, s, id, frame, now))
  {
    var t := Taken(r, id, now);
    TakenKeeps(r, id, now);
    if !Take(PHONE_POLICY, BucketOf(r, id, now), now).1 { CloseKeeps(t, {s}); }
    else if Sockets(r.open, Data(id)) != {} { PassOnKeeps(t, s, id, frame); }
    else if Full(BufferOf(r, id), frame) { CloseKeeps(t, {s}); }
    else { HoldKeeps(t, s, id, frame); }
  }

  lemma FromDataKeeps(r: Room, s: Socket, id: Id, frame: Frame)
    requires Inv(r) && s in r.open && r.open[s] == Data(id)
    ensures Inv(ToPhone(r, s, id, frame))
  {
    var d := ToPhone(r, s, id, frame);
    SentShape(r, d.sent, d.arrived);
    forall other ensures Ordered(d, other) && Forwarded(d, other) {
      assert Ordered(r, other) && Forwarded(r, other) && AtMostOne(r.open, Phone(id));
      FromDataOrder(r, s, id, frame, other);
    }
  }

  // Close events.

  lemma GoneSockets(r: Room, s: Socket)
    ensures forall role :: Sockets(Gone(r, s).open, role) == Sockets(r.open, role) - {s}
    ensures Phones(Gone(r, s).open) == Phones(r.open) - {s}
  {
  }

  lemma GoneShape(r: Room, s: Socket)
    requires Shape(r)
    ensures Shape(Gone(r, s))
  {
    CloseShape(r, {s});
    assert Gone(r, s).open == Close(r, {s}).open;
  }

  lemma GoneConsistent(r: Room, s: Socket)
    requires Consistent(r)
    ensures Consistent(Gone(r, s))
  {
    GoneShape(r, s);
    GoneSockets(r, s);
    forall id ensures Ordered(Gone(r, s), id) && Forwarded(Gone(r, s), id) {
      assert Ordered(r, id) && Forwarded(r, id);
    }
  }

  lemma GoneKeeps(r: Room, s: Socket)
    requires Inv(r) && s !in Sockets(r.open, Control)
    ensures Inv(Gone(r, s))
  {
    GoneConsistent(r, s);
    GoneSockets(r, s);
    assert Sockets(r.open, Control) - {s} == Sockets(r.open, Control);
  }

  lemma ControlGoneKeeps(r: Room, s: Socket)
    requires Inv(r) && (if s in r.open then r.open[s] == Control else s in r.closing && r.closing[s] == Control)
    ensures Inv(OnClose(r, s))
  {
    var g := Gone(r, s);
    GoneConsistent(r, s);
    if Sockets(g.open, Control) == {} {
      ClearKeeps(g, PhonesAndData(g.open));
    } else {
      GoneSockets(r, s);
    }
  }

  /** The tables forget a connection whose phone is gone. */
  function Forgotten(r: Room, id: Id): Room {
    r.(buckets := r.buckets - {id}, buffers := r.buffers - {id}, cleared := r.cleared + {id})
  }

  lemma ForgottenKeeps(r: Room, id: Id)
    requires Inv(r) && id in r.ids && Sockets(r.open, Phone(id)) == {}
    ensures Inv(Forgotten(r, id))
  {
    forall s | s in r.open && r.open[s].Phone? ensures r.open[s].id != id {
      assert s !in Sockets(r.open, Phone(id));
    }
    forall other ensures Ordered(Forgotten(r, id), other) && Forwarded(Forgotten(r, id), other) {
      assert Ordered(r, other) && Forwarded(r, other);
    }
  }

  lemma DisconnectedOrder(r: Room, id: Id, other: Id)
    requires AtMostOne(r.open, Control) && Ordered(r, other) && Forwarded(r, other)
    ensures
      var b := Broadcast(r, Sockets(r.open, Control), Disconnected(id));
      Ordered(b, other) && Forwarded(b, other)
  {
    BroadcastFrames(r, Control, Disconnected(id), Data(other));
    BroadcastFrames(r, Control, Disconnected(id), Phone(other));
  }

  lemma DisconnectedKeeps(r: Room, id: Id)
    requires Inv(r)
    ensures Inv(Broadcast(r, Sockets(r.open, Control), Disconnected(id)))
  {
    var b := Broadcast(r, Sockets(r.open, Control), Disconnected(id));
    SentShape(r, b.sent, b.arrived);
    forall other ensures Ordered(b, other) && Forwarded(b, other) {
      assert Ordered(r, other) && Forwarded(r, other);
      DisconnectedOrder(r, id, other);
    }
  }

  lemma PhoneGoneKeeps(r: Room, s: Socket, id: Id)
    requires Inv(r) && (if s in r.open then r.open[s] == Phone(id) else s in r.closing && r.closing[s] == Phone(id))
    ensures Inv(OnClose(r, s))
  {
    var g := Gone(r, s);
    GoneKeeps(r, s);
    PhoneGoneForGood(r, s, id);
    var c := Close(g, Sockets(g.open, Data(id)));
    CloseKeeps(g, Sockets(g.open, Data(id)));
    assert Sockets(c.open, Phone(id)) == {};
    ForgottenKeeps(c, id);
    DisconnectedKeeps(Forgotten(c, id), id);
  }

  lemma PhoneGoneForGood(r: Room, s: Socket, id: Id)
    requires Shape(r) && (if s in r.open then r.open[s] == Phone(id) else s in r.closing && r.closing[s] == Phone(id))
    ensures Sockets(Gone(r, s).open, Phone(id)) == {} && id in r.ids
  {
    GoneSockets(r, s);
    if s in r.open {
      assert AtMostOne(r.open, Phone(id)) && s in Sockets(r.open, Phone(id));
      assert r.open[s].id in r.ids;
    } else {
      assert Sockets(r.open, r.closing[s]) == {};
      assert r.closing[s].id in r.ids;
    }
  }

  lemma OnCloseKeeps(r: Room, s: Socket)
    requires Inv(r) && (s in r.open || s in r.closing)
    ensures Inv(OnClose(r, s))
  {
    var role := if s in r.open then r.open[s] else r.closing[s];
    match role {
      case Rejected => GoneKeeps(r, s);
      case Control => ControlGoneKeeps(r, s);
      case Phone(id) => PhoneGoneKeeps(r, s, id);
      case Data(id) =>
        GoneKeeps(r, s);
        GoneSockets(r, s);
        CloseKeeps(Gone(r, s), Sockets(Gone(r, s).open, Phone(id)));
    }
  }

  // -------------------------------------------------------- every reachable room

  lemma StepKeeps(r: Room, e: Event)
    requires Inv(r) && Possible(r, e)
    ensures Inv(Step(r, e))
  {
    match e
    case ControlOpens => OpenControlKeeps(r);
    case PhoneOpens(id, now) => OpenPhoneKeeps(r, id, now);
    case DataOpens(id) => OpenDataKeeps(r, id);
    case Arrives(s, m, now) => OnMessageKeeps(r, s, m, now);
    case Closes(s) => OnCloseKeeps(r, s);
  }

  lemma {:induction false} ReachableInv(events: seq<Event>, rooms: seq<Room>, i: nat)
    requires IsRun(events, rooms) && i < |rooms|
    ensures Inv(rooms[i])
  {
    if i == 0 {
      assert Phones(INITIAL.open) == {};
      forall id ensures Ordered(INITIAL, id) && Forwarded(INITIAL, id) {}
    } else {
      ReachableInv(events, rooms, i - 1);
      assert Follows(events, rooms, i - 1);
      StepKeeps(rooms[i - 1], events[i - 1]);
    }
  }

  // -------------------------------------------------- what single events promise

  /** When a frame of a phone is taken in. */
  predicate Accepts(r: Room, id: Id, frame: Frame, now: real) {
    && |frame| <= MAX_FRAME_BYTES
    && Take(PHONE_POLICY, BucketOf(r, id, now), now).1
    && (Sockets(r.open, Data(id)) != {} || !Full(BufferOf(r, id), frame))
  }

  /**
   A frame is either taken in, and the phone stays open, or rejected, and the phone is closed: the
   frames that arrived are exactly those sent before the first rejected one.
   */
  lemma AcceptedOrClosed(r: Room, s: Socket, id: Id, m: Message, now: real)
    requires s in r.open && r.open[s] == Phone(id)
    ensures
      var r' := OnMessage(r, s, m, now);
      if m.Payload? && Accepts(r, id, m.frame, now)
      then r'.arrived == r.arrived + [Entry(s, Phone(id), Binary(m.frame))] && r'.open == r.open
      else r'.arrived == r.arrived && r'.sent == r.sent && r'.buffers == r.buffers && r'.open == r.open - {s}
  {
  }

  /** The late close event of a replaced control leaves the new control's connections alone. */
  lemma LateControlCloseIsHarmless(r: Room, s: Socket)
    requires Inv(r) && s in r.closing && r.closing[s] == Control && Sockets(r.open, Control) != {}
    ensures OnClose(r, s) == r.(closing := r.closing - {s})
  {
  }

  /** A close event of a data socket, late or not, closes every open phone of its connection. */
  lemma DataCloseClosesPhones(r: Room, s: Socket, id: Id)
    requires if s in r.open then r.open[s] == Data(id) else s in r.closing && r.closing[s] == Data(id)
    ensures Phones(OnClose(r, s).open) == Phones(r.open) - Sockets(r.open, Phone(id))
    ensures Sockets(OnClose(r, s).open, Phone(id)) == {}
    ensures Phones(OnClose(r, s).open) == Phones(r.open) <==> Sockets(r.open, Phone(id)) == {}
  {
  }

  lemma OpenDataEffect(r: Room, id: Id)
    requires r.next !in r.open && Sockets(r.open, Phone(id)) != {}
    ensures Sockets(OpenData(r, id).open, Phone(id)) == Sockets(r.open, Phone(id))
    ensures Sockets(OpenData(r, id).open, Data(id)) == {r.next} && OpenData(r, id).next == r.next + 1
    ensures forall s :: s in Sockets(r.open, Data(id)) ==>
            s in OpenData(r, id).closing && OpenData(r, id).closing[s] == Data(id)
  {
  }

  /**
   So replacing a data socket is never harmless: the late close event of the old one closes the
   phone although the new one is open.
   */
  lemma ReplacedDataDropsPhone(r: Room, id: Id, d: Socket)
    requires SocketsOk(r) && Sockets(r.open, Phone(id)) != {} && d in Sockets(r.open, Data(id))
    ensures
      var t := OpenData(r, id);
      && Possible(t, Closes(d)) && Sockets(t.open, Phone(id)) == Sockets(r.open, Phone(id))
      && Sockets(Step(t, Closes(d)).open, Phone(id)) == {} && Sockets(Step(t, Closes(d)).open, Data(id)) == {r.next}
  {
    var t := OpenData(r, id);
    OpenDataEffect(r, id);
    ReplacedIsNotOpen(r, id, d);
    DataCloseClosesPhones(t, d, id);
    DataCloseKeepsData(t, d, id);
  }

  /** The same, from the first event of a room. */
  lemma FirstConnectionIsDropped(id: Id, now: real)
    ensures
      var r := OpenData(OpenPhone(OpenControl(INITIAL), id, now), id);
      && Sockets(r.open, Phone(id)) == {1} && Sockets(r.open, Data(id)) == {2}
      && Possible(OpenData(r, id), Closes(2))
      && Sockets(Step(OpenData(r, id), Closes(2)).open, Phone(id)) == {}
  {
    var c := OpenControl(INITIAL);
    assert c.open == map[0 := Control];
    assert 0 in Sockets(c.open, Control) && Phones(c.open) == {};
    var p := OpenPhone(c, id, now);
    assert p.open == map[0 := Control, 1 := Phone(id)];
    assert Sockets(p.open, Phone(id)) == {1} && p.next == 2;
    OpenDataEffect(p, id);
    assert Phones(INITIAL.open) == {};
    forall other ensures Ordered(INITIAL, other) && Forwarded(INITIAL, other) {}
    OpenControlKeeps(INITIAL);
    OpenPhoneKeeps(c, id, now);
    OpenDataKeeps(p, id);
    ReplacedDataDropsPhone(OpenData(p, id), id, 2);
  }

  lemma ReplacedIsNotOpen(r: Room, id: Id, s: Socket)
    requires s in Sockets(r.open, Data(id)) && s != r.next && Sockets(r.open, Phone(id)) != {}
    ensures s !in OpenData(r, id).open
  {
  }

  lemma DataCloseKeepsData(r: Room, s: Socket, id: Id)
    requires s in r.closing && s !in r.open && r.closing[s] == Data(id)
    ensures Sockets(OnClose(r, s).open, Data(id)) == Sockets(r.open, Data(id))
  {
  }

  /** No window of a phone's calls grants more frames than the burst and what the window earned. */
  lemma PhoneRate(r: Room, id: Id, i: nat, j: nat)
    requires Inv(r) && id in r.buckets && i <= j < |r.calls[id]| && Clocklike(r.calls[id])
    ensures Grants(PHONE_POLICY, r.calls[id], i, j + 1) as real
            <= 300.0 + (r.calls[id][j] - r.calls[id][i]) / 1000.0 * 100.0
  {
    WindowBound(PHONE_POLICY, r.calls[id], i, j);
  }
}
