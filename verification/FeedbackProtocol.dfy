/**
 Many callers at one receipts table: double clicks, retries, restarts, lost answers.  A call is a
 few steps with anything in between, and can be abandoned after each of them; a POST it sent can
 reach GitHub long after that.
 */
module FeedbackProtocol {
  import opened Basics
  import opened FeedbackDelivery

  type Caller = nat

  /** Where a call of `deliver` stands.  `attempt` numbers the POST it is allowed to make. */
  datatype Phase =
    | Reserving
    | Posting(attempt: nat) | Waiting(attempt: nat)
    | Publishing(attempt: nat, issue: Issue) | Rejecting(attempt: nat)
    | Looking | Searching | Storing(issue: Issue)

  datatype Call = Call(input: Input, phase: Phase)

  /** What became of a reserved POST.  `Refused` is a definite rejection. */
  datatype Status = Reserved | InFlight | Made(number: nat) | Unmade | Refused

  datatype Attempt = Attempt(id: RequestId, status: Status, reply: Option<Http>)

  /** An issue GitHub created, and the POST it came from. */
  datatype Created = Created(id: RequestId, attempt: nat, number: nat)

  /** `owner` is the attempt that inserted a row. */
  datatype System = System(
    rows: Receipts, owner: map<RequestId, nat>, attempts: seq<Attempt>,
    calls: map<Caller, Call>, created: seq<Created>)

  const INITIAL: System := System(map[], map[], [], map[], [])

  datatype Step =
    | Begin(caller: Caller, input: Input)
    | Insert(caller: Caller)
    | Send(caller: Caller)
    | Serve(attempt: nat, http: Http, makes: bool, number: nat)
    | Receive(caller: Caller)
    | StorePublished(caller: Caller)
    | DeleteRow(caller: Caller)
    | Look(caller: Caller)
    | FinishSearch(caller: Caller, found: Option<Issue>)
    | StoreFound(caller: Caller)
    | Abandon(caller: Caller)

  /**
   When a step can happen.  Two assumptions about GitHub: a definite rejection created nothing,
   and an answer with an issue is about the issue that this POST created.  One about the listing:
   an entry that carries a request's marker is an issue created for that request.
   */
  predicate Possible(s: System, step: Step) {
    match step
    case Begin(c, _) => c !in s.calls
    case Insert(c) => c in s.calls && s.calls[c].phase.Reserving?
    case Send(c) => c in s.calls && s.calls[c].phase.Posting? && s.calls[c].phase.attempt < |s.attempts|
    case Serve(a, http, makes, number) =>
      && a < |s.attempts| && s.attempts[a].status.InFlight?
      && (DefiniteRejection(http) ==> !makes)
      && (PostResult(http).Success? ==>
           makes && (PostResult(http).value.number == Some(number) || ReadIssue(PostResult(http).value).Failure?))
    case Receive(c) =>
      && c in s.calls && s.calls[c].phase.Waiting? && s.calls[c].phase.attempt < |s.attempts|
      && s.attempts[s.calls[c].phase.attempt].reply.Some?
    case StorePublished(c) => c in s.calls && s.calls[c].phase.Publishing?
    case DeleteRow(c) => c in s.calls && s.calls[c].phase.Rejecting?
    case Look(c) => c in s.calls && s.calls[c].phase.Looking?
    case FinishSearch(c, found) =>
      && c in s.calls && s.calls[c].phase.Searching?
      && (found.Some? ==> exists i :: 0 <= i < |s.created| && s.created[i].id == s.calls[c].input.requestId
                                      && s.created[i].number == found.value.number)
    case StoreFound(c) => c in s.calls && s.calls[c].phase.Storing?
    case Abandon(c) => c in s.calls
  }

  function Move(s: System, c: Caller, phase: Phase): System
    requires c in s.calls
  {
    s.(calls := s.calls[c := s.calls[c].(phase := phase)])
  }

  function End(s: System, c: Caller): System {
    s.(calls := s.calls - {c})
  }

  function Next(s: System, step: Step): System
    requires Possible(s, step)
  {
    match step
    case Begin(c, input) => s.(calls := s.calls[c := Call(input, Reserving)])
    case Insert(c) =>
      var input := s.calls[c].input;
      if input.requestId in s.rows then Move(s, c, Looking)
      else
        Move(s, c, Posting(|s.attempts|)).(
          rows := Reserve(s.rows, input),
          owner := s.owner[input.requestId := |s.attempts|],
          attempts := s.attempts + [Attempt(input.requestId, Reserved, None)])
    case Send(c) =>
      var a := s.calls[c].phase.attempt;
      Move(s, c, Waiting(a)).(attempts := s.attempts[a := s.attempts[a].(status := InFlight)])
    case Serve(a, http, makes, number) =>
      var status := if makes then Made(number) else if DefiniteRejection(http) then Refused else Unmade;
      s.(attempts := s.attempts[a := s.attempts[a].(status := status, reply := Some(http))],
         created := if makes then s.created + [Created(s.attempts[a].id, a, number)] else s.created)
    case Receive(c) =>
      var a := s.calls[c].phase.attempt;
      (match PostResult(s.attempts[a].reply.value)
       case Failure(error) => if error.GitHub? then Move(s, c, Rejecting(a)) else End(s, c)
       case Success(entry) =>
         if ReadIssue(entry).Success? then Move(s, c, Publishing(a, ReadIssue(entry).value)) else End(s, c))
    case StorePublished(c) =>
      End(s, c).(rows := Remember(s.rows, s.calls[c].input.requestId, s.calls[c].phase.issue))
    case DeleteRow(c) =>
      var id := s.calls[c].input.requestId;
      End(s, c).(rows := Forget(s.rows, id), owner := s.owner - {id})
    case Look(c) =>
      var input := s.calls[c].input;
      if input.requestId in s.rows && s.rows[input.requestId].payload == input && s.rows[input.requestId].issue.None?
      then Move(s, c, Searching)
      else End(s, c)
    case FinishSearch(c, found) => if found.Some? then Move(s, c, Storing(found.value)) else End(s, c)
    case StoreFound(c) =>
      End(s, c).(rows := Remember(s.rows, s.calls[c].input.requestId, s.calls[c].phase.issue))
    case Abandon(c) => End(s, c)
  }

  // -------------------------------------------------------------- invariant

  /** The attempt `a` is the one that owns the row of `id`. */
  predicate Owns(s: System, id: RequestId, a: nat) {
    id in s.owner && s.owner[id] == a && a < |s.attempts| && s.attempts[a].id == id
  }

  predicate HasAttempt(p: Phase) {
    p.Posting? || p.Waiting? || p.Publishing? || p.Rejecting?
  }

  predicate SameAttempt(p: Phase, q: Phase) {
    HasAttempt(p) && HasAttempt(q) && p.attempt == q.attempt
  }

  predicate CallOk(s: System, call: Call) {
    var id := call.input.requestId;
    match call.phase
    case Posting(a) => Owns(s, id, a) && s.attempts[a].status.Reserved?
    case Waiting(a) => Owns(s, id, a) && !s.attempts[a].status.Reserved?
    case Publishing(a, issue) => Owns(s, id, a) && s.attempts[a].status == Made(issue.number)
    case Rejecting(a) => Owns(s, id, a) && s.attempts[a].status.Refused?
    case Storing(issue) =>
      id in s.owner && Owns(s, id, s.owner[id])
      && s.attempts[s.owner[id]].status == Made(issue.number)
    case _ => true
  }

  ghost predicate RowsOk(s: System) {
    && s.owner.Keys == s.rows.Keys
    && forall id :: id in s.rows ==>
         && Owns(s, id, s.owner[id])
         && s.rows[id].payload.requestId == id
         && (s.rows[id].issue.Some? ==> s.attempts[s.owner[id]].status == Made(s.rows[id].issue.value.number))
  }

  /** Only a definite rejection ever loses its row; a reply tells what became of the POST. */
  ghost predicate AttemptsOk(s: System) {
    forall a :: 0 <= a < |s.attempts| ==>
      && (!s.attempts[a].status.Refused? ==> Owns(s, s.attempts[a].id, a))
      && (s.attempts[a].status.Reserved? || s.attempts[a].status.InFlight? ==> s.attempts[a].reply.None?)
      && (s.attempts[a].reply.Some? ==> ReplyOk(s.attempts[a]))
  }

  predicate ReplyOk(a: Attempt)
    requires a.reply.Some?
  {
    match PostResult(a.reply.value)
    case Failure(error) => error.GitHub? ==> a.status.Refused?
    case Success(entry) => ReadIssue(entry).Success? ==> a.status == Made(ReadIssue(entry).value.number)
  }

  ghost predicate CreatedOk(s: System) {
    && (forall i :: 0 <= i < |s.created| ==>
         && s.created[i].attempt < |s.attempts|
         && s.attempts[s.created[i].attempt].id == s.created[i].id
         && s.attempts[s.created[i].attempt].status == Made(s.created[i].number))
    && forall i, j :: 0 <= i < j < |s.created| ==> s.created[i].attempt != s.created[j].attempt
  }

  ghost predicate CallsOk(s: System) {
    && (forall c :: c in s.calls ==> CallOk(s, s.calls[c]))
    && forall c, d :: (c in s.calls && d in s.calls && SameAttempt(s.calls[c].phase, s.calls[d].phase)) ==> c == d
  }

  ghost predicate Inv(s: System) {
    RowsOk(s) && AttemptsOk(s) && CreatedOk(s) && CallsOk(s)
  }

  lemma StepKeeps(s: System, step: Step)
    requires Inv(s) && Possible(s, step)
    ensures Inv(Next(s, step))
  {
    match step {
      case Begin(c, input) => BeginKeeps(s, c, input);
      case Insert(c) =>
        if s.calls[c].input.requestId in s.rows { MoveKeeps(s, c, Looking); } else { InsertKeeps(s, c); }
      case Send(c) => SendKeeps(s, c);
      case Serve(a, http, makes, number) => ServeKeeps(s, a, http, makes, number);
      case Receive(c) => ReceiveKeeps(s, c);
      case StorePublished(c) => StoreKeeps(s, c);
      case DeleteRow(c) => DeleteRowKeeps(s, c);
      case Look(c) => MoveKeeps(s, c, Searching); EndKeeps(s, c);
      case FinishSearch(c, found) => if found.Some? { FinishSearchKeeps(s, c, found); } else { EndKeeps(s, c); }
      case StoreFound(c) => StoreKeeps(s, c);
      case Abandon(c) => EndKeeps(s, c);
    }
  }

  /** A step that changes calls only. */
  lemma CallsOnly(s: System, calls: map<Caller, Call>)
    requires RowsOk(s) && AttemptsOk(s) && CreatedOk(s) && CallsOk(s.(calls := calls))
    ensures Inv(s.(calls := calls))
  {
    var n := s.(calls := calls);
    forall id, a: nat ensures Owns(n, id, a) <==> Owns(s, id, a) {}
  }

  lemma BeginKeeps(s: System, c: Caller, input: Input)
    requires Inv(s) && c !in s.calls
    ensures Inv(Next(s, Begin(c, input)))
  {
    var n := Next(s, Begin(c, input));
    forall d | d in n.calls ensures CallOk(n, n.calls[d]) {
      if d != c { assert CallOk(s, s.calls[d]); }
    }
    CallsOnly(s, n.calls);
  }

  lemma EndKeeps(s: System, c: Caller)
    requires Inv(s)
    ensures Inv(End(s, c))
  {
    forall d | d in s.calls - {c} ensures CallOk(End(s, c), s.calls[d]) { assert CallOk(s, s.calls[d]); }
    CallsOnly(s, s.calls - {c});
  }

  lemma MoveKeeps(s: System, c: Caller, phase: Phase)
    requires Inv(s) && c in s.calls && CallOk(s, s.calls[c].(phase := phase))
    requires HasAttempt(phase) ==> SameAttempt(s.calls[c].phase, phase)
    ensures Inv(Move(s, c, phase))
  {
    var n := Move(s, c, phase);
    forall d | d in n.calls ensures CallOk(n, n.calls[d]) {
      if d != c { assert CallOk(s, s.calls[d]); }
    }
    forall d, e | d in n.calls && e in n.calls && SameAttempt(n.calls[d].phase, n.calls[e].phase) ensures d == e {
      assert SameAttempt(s.calls[d].phase, s.calls[e].phase);
    }
    CallsOnly(s, n.calls);
  }

  lemma ReceiveKeeps(s: System, c: Caller)
    requires Inv(s) && Possible(s, Receive(c))
    ensures Inv(Next(s, Receive(c)))
  {
    var a := s.calls[c].phase.attempt;
    assert CallOk(s, s.calls[c]) && ReplyOk(s.attempts[a]);
    match PostResult(s.attempts[a].reply.value) {
      case Failure(error) => if error.GitHub? { MoveKeeps(s, c, Rejecting(a)); } else { EndKeeps(s, c); }
      case Success(entry) =>
        if ReadIssue(entry).Success? {
          MoveKeeps(s, c, Publishing(a, ReadIssue(entry).value));
        } else {
          EndKeeps(s, c);
        }
    }
  }

  lemma RememberKeeps(s: System, id: RequestId, issue: Issue)
    requires Inv(s) && id in s.owner && s.attempts[s.owner[id]].status == Made(issue.number)
    ensures Inv(s.(rows := Remember(s.rows, id, issue)))
  {
    var n := s.(rows := Remember(s.rows, id, issue));
    forall k, a: nat ensures Owns(n, k, a) <==> Owns(s, k, a) {}
    forall d | d in n.calls ensures CallOk(n, n.calls[d]) { assert CallOk(s, s.calls[d]); }
  }

  lemma StoreKeeps(s: System, c: Caller)
    requires Inv(s) && c in s.calls && (s.calls[c].phase.Publishing? || s.calls[c].phase.Storing?)
    ensures Inv(End(s, c).(rows := Remember(s.rows, s.calls[c].input.requestId, s.calls[c].phase.issue)))
  {
    assert CallOk(s, s.calls[c]);
    EndKeeps(s, c);
    RememberKeeps(End(s, c), s.calls[c].input.requestId, s.calls[c].phase.issue);
  }

  /** A fresh row: nobody else was at work on this request. */
  lemma InsertKeeps(s: System, c: Caller)
    requires Inv(s) && Possible(s, Insert(c)) && s.calls[c].input.requestId !in s.rows
    ensures Inv(Next(s, Insert(c)))
  {
    var n := Next(s, Insert(c));
    var id := s.calls[c].input.requestId;
    forall k, a: nat | Owns(s, k, a) ensures Owns(n, k, a) && n.attempts[a] == s.attempts[a] {}
    forall d | d in n.calls ensures CallOk(n, n.calls[d]) {
      if d != c { assert CallOk(s, s.calls[d]); }
    }
    forall d | d in s.calls && HasAttempt(s.calls[d].phase) ensures s.calls[d].phase.attempt < |s.attempts| {
      assert CallOk(s, s.calls[d]);
    }
    InsertRows(s, c);
  }

  lemma InsertRows(s: System, c: Caller)
    requires RowsOk(s) && AttemptsOk(s) && CreatedOk(s) && Possible(s, Insert(c))
             && s.calls[c].input.requestId !in s.rows
    ensures RowsOk(Next(s, Insert(c))) && AttemptsOk(Next(s, Insert(c))) && CreatedOk(Next(s, Insert(c)))
  {
    InsertAttempts(s, c);
  }

  lemma InsertAttempts(s: System, c: Caller)
    requires RowsOk(s) && AttemptsOk(s) && Possible(s, Insert(c)) && s.calls[c].input.requestId !in s.rows
    ensures AttemptsOk(Next(s, Insert(c)))
  {
  }

  lemma SendKeeps(s: System, c: Caller)
    requires Inv(s) && Possible(s, Send(c))
    ensures Inv(Next(s, Send(c)))
  {
    assert CallOk(s, s.calls[c]);
    SendCalls(s, c);
  }

  lemma SendCalls(s: System, c: Caller)
    requires CallsOk(s) && Possible(s, Send(c)) && CallOk(s, s.calls[c])
    ensures CallsOk(Next(s, Send(c)))
  {
    var n := Next(s, Send(c));
    forall d | d in n.calls ensures CallOk(n, n.calls[d]) {
      if d != c { assert CallOk(s, s.calls[d]); }
    }
  }

  lemma ServeKeeps(s: System, a: nat, http: Http, makes: bool, number: nat)
    requires Inv(s) && Possible(s, Serve(a, http, makes, number))
    ensures Inv(Next(s, Serve(a, http, makes, number)))
  {
    var n := Next(s, Serve(a, http, makes, number));
    ServeCreated(s, a, http, makes, number);
    forall id | id in n.rows ensures Owns(n, id, n.owner[id]) { assert Owns(s, id, s.owner[id]); }
    forall c | c in n.calls ensures CallOk(n, n.calls[c]) { assert CallOk(s, s.calls[c]); }
  }

  lemma ServeCreated(s: System, a: nat, http: Http, makes: bool, number: nat)
    requires CreatedOk(s) && Possible(s, Serve(a, http, makes, number))
    ensures CreatedOk(Next(s, Serve(a, http, makes, number)))
  {
  }

  lemma DeleteRowKeeps(s: System, c: Caller)
    requires Inv(s) && Possible(s, DeleteRow(c))
    ensures Inv(Next(s, DeleteRow(c)))
  {
    assert CallOk(s, s.calls[c]);
    DeleteAttempts(s, c);
    DeleteCalls(s, c);
  }

  lemma DeleteAttempts(s: System, c: Caller)
    requires AttemptsOk(s) && Possible(s, DeleteRow(c)) && CallOk(s, s.calls[c])
    ensures AttemptsOk(Next(s, DeleteRow(c)))
  {
    var n := Next(s, DeleteRow(c));
    forall a | 0 <= a < |s.attempts| && !s.attempts[a].status.Refused? ensures Owns(n, s.attempts[a].id, a) {
      assert Owns(s, s.attempts[a].id, a);
    }
  }

  /** Nobody else is at work on the row that goes. */
  lemma DeleteCalls(s: System, c: Caller)
    requires CallsOk(s) && Possible(s, DeleteRow(c)) && CallOk(s, s.calls[c])
    ensures CallsOk(Next(s, DeleteRow(c)))
  {
    var n := Next(s, DeleteRow(c));
    forall d | d in n.calls ensures CallOk(n, n.calls[d]) {
      assert CallOk(s, s.calls[d]);
    }
  }

  lemma FinishSearchKeeps(s: System, c: Caller, found: Option<Issue>)
    requires Inv(s) && Possible(s, FinishSearch(c, found))
    ensures Inv(Next(s, FinishSearch(c, found)))
  {
    if found.Some? {
      var i :| 0 <= i < |s.created| && s.created[i].id == s.calls[c].input.requestId
        && s.created[i].number == found.value.number;
      assert Owns(s, s.created[i].id, s.created[i].attempt);
      MoveKeeps(s, c, Storing(found.value));
    } else {
      EndKeeps(s, c);
    }
  }

  // --------------------------------------------------------------- all runs

  ghost predicate IsRunFrom(s: System, steps: seq<Step>, states: seq<System>) {
    && |states| == |steps| + 1 && states[0] == s
    && forall i | 0 <= i < |steps| :: Possible(states[i], steps[i]) && states[i + 1] == Next(states[i], steps[i])
  }

  ghost predicate IsRun(steps: seq<Step>, states: seq<System>) {
    IsRunFrom(INITIAL, steps, states)
  }

  lemma {:induction false} ReachableInv(steps: seq<Step>, states: seq<System>, i: nat)
    requires IsRun(steps, states) && i < |states|
    ensures Inv(states[i])
  {
    if i > 0 {
      ReachableInv(steps, states, i - 1);
      StepKeeps(states[i - 1], steps[i - 1]);
    }
  }

  /** At most one issue is ever created for a request. */
  lemma AtMostOneIssue(steps: seq<Step>, states: seq<System>, k: nat)
    requires IsRun(steps, states) && k < |states|
    ensures
      var created := states[k].created;
      forall i, j :: 0 <= i < j < |created| ==> created[i].id != created[j].id
  {
    ReachableInv(steps, states, k);
    var s := states[k];
    forall i, j | 0 <= i < j < |s.created| ensures s.created[i].id != s.created[j].id {
      assert Owns(s, s.created[i].id, s.created[i].attempt);
      assert Owns(s, s.created[j].id, s.created[j].attempt);
    }
  }

  /**
   A row stays, with its payload, until the attempt that owns it was definitely rejected; and once
   it stores an issue it stores that issue's number for good.
   */
  lemma RowStays(s: System, step: Step, id: RequestId)
    requires Inv(s) && Possible(s, step) && id in s.rows
    ensures
      var n := Next(s, step);
      && (id !in n.rows ==> s.attempts[s.owner[id]].status.Refused? && s.rows[id].issue.None?)
      && (id in n.rows ==> n.rows[id].payload == s.rows[id].payload)
      && (s.rows[id].issue.Some? ==> id in n.rows && n.rows[id].issue.Some?
                                     && n.rows[id].issue.value.number == s.rows[id].issue.value.number)
  {
    match step
    case StorePublished(c) => StoreStays(s, c, id);
    case StoreFound(c) => StoreStays(s, c, id);
    case DeleteRow(c) => if id == s.calls[c].input.requestId { DeleteStays(s, c, id); }
    case _ =>
  }

  lemma StoreStays(s: System, c: Caller, id: RequestId)
    requires Inv(s) && id in s.rows && c in s.calls && (s.calls[c].phase.Publishing? || s.calls[c].phase.Storing?)
    ensures
      var rows := Remember(s.rows, s.calls[c].input.requestId, s.calls[c].phase.issue);
      && id in rows && rows[id].payload == s.rows[id].payload
      && (s.rows[id].issue.Some? ==>
           rows[id].issue.Some? && rows[id].issue.value.number == s.rows[id].issue.value.number)
  {
    assert CallOk(s, s.calls[c]);
  }

  lemma DeleteStays(s: System, c: Caller, id: RequestId)
    requires Inv(s) && id in s.rows && Possible(s, DeleteRow(c)) && id == s.calls[c].input.requestId
    ensures s.attempts[s.owner[id]].status.Refused? && s.rows[id].issue.None?
  {
    assert CallOk(s, s.calls[c]);
  }

  /** Over a whole run: a stored issue is never lost, and never becomes another issue. */
  lemma {:induction false} StoredForGood(steps: seq<Step>, states: seq<System>, i: nat, j: nat, id: RequestId)
    requires IsRun(steps, states) && i <= j < |states|
    requires id in states[i].rows && states[i].rows[id].issue.Some?
    ensures id in states[j].rows && states[j].rows[id].issue.Some?
    ensures states[j].rows[id].payload == states[i].rows[id].payload
    ensures states[j].rows[id].issue.value.number == states[i].rows[id].issue.value.number
    decreases j
  {
    if i < j {
      StoredForGood(steps, states, i, j - 1, id);
      ReachableInv(steps, states, j - 1);
      RowStays(states[j - 1], steps[j - 1], id);
    }
  }

  /** And it is the one issue that was created for the request. */
  lemma StoredWasCreated(s: System, id: RequestId)
    requires Inv(s) && id in s.rows && s.rows[id].issue.Some?
    ensures s.attempts[s.owner[id]].id == id && s.attempts[s.owner[id]].status == Made(s.rows[id].issue.value.number)
    ensures forall i :: 0 <= i < |s.created| && s.created[i].id == id ==>
            s.created[i].number == s.rows[id].issue.value.number
  {
  }

  // ------------------------------------------- one undisturbed call is `deliver`

  /** The table after `deliver` published a fresh request, as its contract states it. */
  function Published(rows: Receipts, input: Input, http: Http): Receipts {
    match Publish(http)
    case Success(issue) => Remember(Reserve(rows, input), input.requestId, issue)
    case Failure(error) => if error.GitHub? then rows else Reserve(rows, input)
  }

  /** The steps of a fresh call up to its POST. */
  function UntilSent(s: System, c: Caller, input: Input): (t: System)
    requires c !in s.calls && input.requestId !in s.rows
    ensures t.rows == Reserve(s.rows, input)
    ensures t.attempts == s.attempts + [Attempt(input.requestId, InFlight, None)]
    ensures c in t.calls && t.calls[c] == Call(input, Waiting(|s.attempts|))
  {
    var begun := Next(s, Begin(c, input));
    Next(Next(begun, Insert(c)), Send(c))
  }

  /** The steps of a fresh call up to GitHub's answer. */
  function UntilAnswer(s: System, c: Caller, input: Input, http: Http, makes: bool, number: nat): System
    requires c !in s.calls && input.requestId !in s.rows
    requires DefiniteRejection(http) ==> !makes
    requires PostResult(http).Success? ==>
               makes && (PostResult(http).value.number == Some(number) || ReadIssue(PostResult(http).value).Failure?)
  {
    var served := Next(UntilSent(s, c, input), Serve(|s.attempts|, http, makes, number));
    Next(served, Receive(c))
  }

  lemma ReservedRows(s: System, c: Caller, input: Input, http: Http, makes: bool, number: nat)
    requires c !in s.calls && input.requestId !in s.rows
    requires DefiniteRejection(http) ==> !makes
    requires PostResult(http).Success? ==>
               makes && (PostResult(http).value.number == Some(number) || ReadIssue(PostResult(http).value).Failure?)
    ensures UntilAnswer(s, c, input, http, makes, number).rows == Reserve(s.rows, input)
  {
  }

  /** A fresh call that nobody disturbs leaves the table as `deliver` does. */
  lemma UndisturbedCallIsDeliver(s: System, c: Caller, input: Input, http: Http, makes: bool, number: nat)
    requires c !in s.calls && input.requestId !in s.rows
    requires DefiniteRejection(http) ==> !makes
    requires PostResult(http).Success? ==>
               makes && (PostResult(http).value.number == Some(number) || ReadIssue(PostResult(http).value).Failure?)
    ensures
      var t := UntilAnswer(s, c, input, http, makes, number);
      var rows :=
        if c !in t.calls then t.rows
        else if t.calls[c].phase.Publishing? then Next(t, StorePublished(c)).rows
        else if t.calls[c].phase.Rejecting? then Next(t, DeleteRow(c)).rows
        else map[];
      rows == Published(s.rows, input, http)
  {
    var t := UntilAnswer(s, c, input, http, makes, number);
    assert t.rows == Reserve(s.rows, input) by { ReservedRows(s, c, input, http, makes, number); }
    assert Forget(Reserve(s.rows, input), input.requestId) == s.rows;
  }

  /** The steps of a call up to its look at the row. */
  function UntilLook(s: System, c: Caller, input: Input): System
    requires c !in s.calls && input.requestId in s.rows
  {
    Next(Next(Next(s, Begin(c, input)), Insert(c)), Look(c))
  }

  /**
   A call for a known id that nobody disturbs: it never posts, it searches exactly when its text is
   the one reserved and no issue is stored, and what it finds, if anything, is stored.
   */
  lemma UndisturbedRetryIsDeliver(s: System, c: Caller, input: Input, found: Option<Issue>)
    requires c !in s.calls && input.requestId in s.rows
    ensures
      var looked, row := UntilLook(s, c, input), s.rows[input.requestId];
      && looked.rows == s.rows && looked.attempts == s.attempts && looked.created == s.created
      && (c in looked.calls <==> row.payload == input && row.issue == None)
      && (c in looked.calls && Possible(looked, FinishSearch(c, found)) ==>
            var t := Next(looked, FinishSearch(c, found));
            if found == None then c !in t.calls && t.rows == s.rows
            else && Possible(t, StoreFound(c)) && t.rows == s.rows
                 && Next(t, StoreFound(c)).rows == s.rows[input.requestId := row.(issue := found)])
  {
  }
}
