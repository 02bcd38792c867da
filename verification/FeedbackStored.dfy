/**
 When a stored issue is final.  Its number never changes; its title and state can, as long as
 another call of the same request is still on the way to storing what it read.
 */
module FeedbackStored {
  import opened Basics
  import opened FeedbackDelivery
  import opened FeedbackProtocol

  /** A POST that made an issue has had its answer, read or lost, and GitHub has the issue. */
  predicate MadeOk(s: System, a: nat)
    requires a < |s.attempts|
  {
    s.attempts[a].status.Made? ==>
      s.attempts[a].reply.Some? && Created(s.attempts[a].id, a, s.attempts[a].status.number) in s.created
  }

  ghost predicate AllMadeOk(s: System) {
    forall a: nat | a < |s.attempts| :: MadeOk(s, a)
  }

  lemma StepKeepsMade(s: System, step: Step)
    requires Inv(s) && AllMadeOk(s) && Possible(s, step)
    ensures AllMadeOk(Next(s, step))
  {
    var n := Next(s, step);
    forall a: nat | a < |n.attempts| ensures MadeOk(n, a) {
      assert a < |s.attempts| ==> MadeOk(s, a);
    }
  }

  lemma {:induction false} ReachableMade(steps: seq<Step>, states: seq<System>, i: nat)
    requires IsRun(steps, states) && i < |states|
    ensures Inv(states[i]) && AllMadeOk(states[i])
  {
    ReachableInv(steps, states, i);
    if i > 0 {
      ReachableMade(steps, states, i - 1);
      StepKeepsMade(states[i - 1], steps[i - 1]);
    }
  }

  /** What the call of a request with a stored issue may still store is that issue. */
  predicate StoresOnly(s: System, phase: Phase, issue: Issue) {
    match phase
    case Waiting(a) => a < |s.attempts| && s.attempts[a].reply.Some? ==> AnswersOnly(s.attempts[a].reply.value, issue)
    case Publishing(_, i) => i == issue
    case Storing(i) => i == issue
    case Searching => false
    case _ => true
  }

  predicate AnswersOnly(http: Http, issue: Issue) {
    PostResult(http).Success? && ReadIssue(PostResult(http).value).Success?
    ==> ReadIssue(PostResult(http).value).value == issue
  }

  /** Nobody searches for the request, and whoever is about to store has read what is stored. */
  ghost predicate Final(s: System, id: RequestId) {
    && id in s.rows && s.rows[id].issue.Some?
    && forall c :: c in s.calls && s.calls[c].input.requestId == id ==>
         StoresOnly(s, s.calls[c].phase, s.rows[id].issue.value)
  }

  lemma FinalStays(s: System, step: Step, id: RequestId)
    requires Inv(s) && Final(s, id) && Possible(s, step)
    ensures id in Next(s, step).rows && Next(s, step).rows[id] == s.rows[id] && Final(Next(s, step), id)
  {
    FinalRowStays(s, step, id);
    var n := Next(s, step);
    forall c | c in n.calls && n.calls[c].input.requestId == id
      ensures StoresOnly(n, n.calls[c].phase, s.rows[id].issue.value)
    {
      if c in s.calls {
        InputStays(s, step, c);
        assert CallOk(s, s.calls[c]) && CallFinal(s, id, c);
        FinalCallStays(s, step, id, c);
      }
    }
  }

  lemma FinalRowStays(s: System, step: Step, id: RequestId)
    requires Inv(s) && Final(s, id) && Possible(s, step)
    ensures id in Next(s, step).rows && Next(s, step).rows[id] == s.rows[id]
  {
    match step
    case StorePublished(c) => StoreSame(s, c, id);
    case DeleteRow(c) => if s.calls[c].input.requestId == id { DeleteStays(s, c, id); }
    case StoreFound(c) => StoreSame(s, c, id);
    case _ => OtherRowsStay(s, step, id);
  }

  lemma StoreSame(s: System, c: Caller, id: RequestId)
    requires Final(s, id) && c in s.calls && (s.calls[c].phase.Publishing? || s.calls[c].phase.Storing?)
    ensures
      var rows := Remember(s.rows, s.calls[c].input.requestId, s.calls[c].phase.issue);
      id in rows && rows[id] == s.rows[id]
  {
  }

  lemma OtherRowsStay(s: System, step: Step, id: RequestId)
    requires Possible(s, step) && id in s.rows && !step.StorePublished? && !step.DeleteRow? && !step.StoreFound?
    ensures id in Next(s, step).rows && Next(s, step).rows[id] == s.rows[id]
  {
    match step
    case Receive(c) => ReceiveRows(s, c);
    case _ =>
  }

  lemma ReceiveRows(s: System, c: Caller)
    requires Possible(s, Receive(c))
    ensures Next(s, Receive(c)).rows == s.rows
  {
  }

  /** What `Final` and the invariant say of one call. */
  predicate CallFinal(s: System, id: RequestId, c: Caller) {
    && id in s.rows && s.rows[id].issue.Some? && id in s.owner && Owns(s, id, s.owner[id])
    && s.attempts[s.owner[id]].status.Made?
    && c in s.calls && s.calls[c].input.requestId == id && CallOk(s, s.calls[c])
    && StoresOnly(s, s.calls[c].phase, s.rows[id].issue.value)
  }

  lemma FinalCallStays(s: System, step: Step, id: RequestId, c: Caller)
    requires CallFinal(s, id, c) && Possible(s, step) && c in Next(s, step).calls
    ensures StoresOnly(Next(s, step), Next(s, step).calls[c].phase, s.rows[id].issue.value)
  {
    if Next(s, step).calls[c] == s.calls[c] { CallRests(s, step, id, c); } else { CallMoves(s, step, id, c); }
  }

  lemma CallRests(s: System, step: Step, id: RequestId, c: Caller)
    requires CallFinal(s, id, c) && Possible(s, step)
    requires c in Next(s, step).calls && Next(s, step).calls[c] == s.calls[c]
    ensures StoresOnly(Next(s, step), s.calls[c].phase, s.rows[id].issue.value)
  {
    if s.calls[c].phase.Waiting? {
      var a := s.calls[c].phase.attempt;
      assert Next(s, step).attempts[a].reply == s.attempts[a].reply;
    }
  }

  lemma CallMoves(s: System, step: Step, id: RequestId, c: Caller)
    requires CallFinal(s, id, c) && Possible(s, step)
    requires c in Next(s, step).calls && Next(s, step).calls[c] != s.calls[c]
    ensures StoresOnly(Next(s, step), Next(s, step).calls[c].phase, s.rows[id].issue.value)
  {
    match step {
      case Insert(d) =>
      case Receive(d) => assert d == c; ReceiveMoves(s, id, c);
      case _ =>
    }
  }

  lemma ReceiveMoves(s: System, id: RequestId, c: Caller)
    requires CallFinal(s, id, c) && Possible(s, Receive(c)) && c in Next(s, Receive(c)).calls
    ensures StoresOnly(Next(s, Receive(c)), Next(s, Receive(c)).calls[c].phase, s.rows[id].issue.value)
  {
  }

  lemma InputStays(s: System, step: Step, c: Caller)
    requires Possible(s, step) && c in s.calls && c in Next(s, step).calls
    ensures Next(s, step).calls[c].input == s.calls[c].input
  {
    match step
    case Receive(d) => ReceiveInput(s, d, c);
    case _ =>
  }

  lemma ReceiveInput(s: System, d: Caller, c: Caller)
    requires Possible(s, Receive(d)) && c in s.calls && c in Next(s, Receive(d)).calls
    ensures Next(s, Receive(d)).calls[c].input == s.calls[c].input
  {
  }

  ghost predicate RowSame(s: System, states: seq<System>, id: RequestId) {
    id in s.rows && forall k | 0 <= k < |states| :: id in states[k].rows && states[k].rows[id] == s.rows[id]
  }

  lemma {:induction false} FinalForGood(s: System, steps: seq<Step>, states: seq<System>, id: RequestId, k: nat)
    requires Inv(s) && Final(s, id) && IsRunFrom(s, steps, states) && k < |states|
    ensures Inv(states[k]) && Final(states[k], id) && states[k].rows[id] == s.rows[id]
  {
    if k > 0 {
      FinalForGood(s, steps, states, id, k - 1);
      StepKeeps(states[k - 1], steps[k - 1]);
      FinalStays(states[k - 1], steps[k - 1], id);
    }
  }

  lemma OneStep(s: System, step: Step)
    requires Possible(s, step)
    ensures IsRunFrom(s, [step], [s, Next(s, step)])
  {
  }

  lemma StepFirst(s: System, step: Step, steps: seq<Step>, states: seq<System>, id: RequestId)
    requires Possible(s, step) && IsRunFrom(Next(s, step), steps, states)
    requires id in s.rows && id in Next(s, step).rows && Next(s, step).rows[id] == s.rows[id]
    requires !RowSame(Next(s, step), states, id)
    ensures IsRunFrom(s, [step] + steps, [s] + states) && !RowSame(s, [s] + states, id)
  {
    var k :| 0 <= k < |states| && !(id in states[k].rows && states[k].rows[id] == s.rows[id]);
    assert ([s] + states)[k + 1] == states[k];
  }

  /** A call about to store something else stores it. */
  lemma OthersAreStored(s: System, c: Caller, id: RequestId) returns (steps: seq<Step>, states: seq<System>)
    requires Inv(s) && AllMadeOk(s) && id in s.rows && s.rows[id].issue.Some?
    requires c in s.calls && s.calls[c].input.requestId == id
    requires !StoresOnly(s, s.calls[c].phase, s.rows[id].issue.value)
    ensures IsRunFrom(s, steps, states) && !RowSame(s, states, id)
  {
    assert CallOk(s, s.calls[c]);
    if s.calls[c].phase.Waiting? {
      steps, states := StoreNext(Next(s, Receive(c)), c, id);
      StepFirst(s, Receive(c), steps, states, id);
      steps, states := [Receive(c)] + steps, [s] + states;
    } else if s.calls[c].phase.Searching? {
      var stored := s.rows[id].issue.value;
      SearchCanFind(s, id);
      var find := FinishSearch(c, Some(stored.(title := stored.title + "!")));
      steps, states := StoreNext(Next(s, find), c, id);
      StepFirst(s, find, steps, states, id);
      steps, states := [find] + steps, [s] + states;
    } else {
      steps, states := StoreNext(s, c, id);
    }
  }

  lemma StoreNext(s: System, c: Caller, id: RequestId) returns (steps: seq<Step>, states: seq<System>)
    requires id in s.rows && c in s.calls && s.calls[c].input.requestId == id
    requires s.calls[c].phase.Publishing? || s.calls[c].phase.Storing?
    requires s.rows[id].issue != Some(s.calls[c].phase.issue)
    ensures IsRunFrom(s, steps, states) && !RowSame(s, states, id)
  {
    var step := if s.calls[c].phase.Storing? then StoreFound(c) else StorePublished(c);
    OneStep(s, step);
    steps, states := [step], [s, Next(s, step)];
    assert states[1].rows[id].issue == Some(s.calls[c].phase.issue);
  }

  lemma SearchCanFind(s: System, id: RequestId)
    requires Inv(s) && AllMadeOk(s) && id in s.rows && s.rows[id].issue.Some?
    ensures exists i :: 0 <= i < |s.created| && s.created[i].id == id
                        && s.created[i].number == s.rows[id].issue.value.number
  {
    assert MadeOk(s, s.owner[id]);
  }

  /** A stored issue stays as it is in every later state exactly when it is final. */
  lemma StoredStaysWhen(s: System, id: RequestId)
    requires Inv(s) && AllMadeOk(s) && id in s.rows && s.rows[id].issue.Some?
    ensures Final(s, id) <==> forall steps, states :: IsRunFrom(s, steps, states) ==> RowSame(s, states, id)
  {
    if Final(s, id) {
      forall steps, states | IsRunFrom(s, steps, states) ensures RowSame(s, states, id) {
        forall k: nat | k < |states| { FinalForGood(s, steps, states, id, k); }
      }
    } else {
      var c :| c in s.calls && s.calls[c].input.requestId == id
        && !StoresOnly(s, s.calls[c].phase, s.rows[id].issue.value);
      var steps, states := OthersAreStored(s, c, id);
    }
  }

  // ------------------------------------------------------------- it can change

  ghost predicate Reached(s: System) {
    exists steps, states :: IsRun(steps, states) && states[|steps|] == s
  }

  lemma ReachNext(s: System, step: Step)
    requires Reached(s) && Possible(s, step)
    ensures Reached(Next(s, step))
  {
    var steps, states :| IsRun(steps, states) && states[|steps|] == s;
    var more, after := steps + [step], states + [Next(s, step)];
    assert IsRun(more, after) && after[|more|] == Next(s, step);
  }

  /** The first caller waits for its POST. */
  function Sent(input: Input): System {
    var id := input.requestId;
    System(map[id := Receipt(input.login, input, None)], map[id := 0], [Attempt(id, InFlight, None)],
           map[0 := Call(input, Waiting(0))], [])
  }

  /** A POST whose answer was lost, although it made issue `n`. */
  function Pending(input: Input, n: nat): System {
    var id := input.requestId;
    Sent(input).(attempts := [Attempt(id, Made(n), Some(NoAnswer))], calls := map[], created := [Created(id, 0, n)])
  }

  lemma SentReached(input: Input)
    ensures Reached(Sent(input))
  {
    var none: seq<Step> := [];
    assert IsRun(none, [INITIAL]) && [INITIAL][|none|] == INITIAL;
    ReachNext(INITIAL, Begin(0, input));
    var s1 := Next(INITIAL, Begin(0, input));
    ReachNext(s1, Insert(0));
    var s2 := Next(s1, Insert(0));
    ReachNext(s2, Send(0));
    assert Next(s2, Send(0)) == Sent(input);
  }

  lemma PendingReached(input: Input, n: nat)
    ensures Reached(Pending(input, n))
  {
    SentReached(input);
    var served := Next(Sent(input), Serve(0, NoAnswer, true, n));
    ReachNext(Sent(input), Serve(0, NoAnswer, true, n));
    ReachNext(served, Abandon(0));
    assert Next(served, Abandon(0)) == Pending(input, n);
  }

  /** One more caller comes and begins to search. */
  lemma SearcherReached(s: System, c: Caller, input: Input)
    requires Reached(s) && c !in s.calls && input.requestId in s.rows
    requires s.rows[input.requestId] == Receipt(input.login, input, None)
    ensures Reached(s.(calls := s.calls[c := Call(input, Searching)]))
  {
    ReachNext(s, Begin(c, input));
    var s1 := Next(s, Begin(c, input));
    ReachNext(s1, Insert(c));
    var s2 := Next(s1, Insert(c));
    ReachNext(s2, Look(c));
    assert Next(s2, Look(c)).calls == s.calls[c := Call(input, Searching)];
  }

  /**
   Two retries after a lost answer: both find the issue, before and after somebody edited it on
   GitHub, and the later write puts its reading in the place of the other's.
   */
  lemma SecondStoreChanges(input: Input, first: Issue, second: Issue) returns (s: System)
    requires first.number == second.number
    ensures Reached(s) && Possible(s, StoreFound(2))
    ensures input.requestId in s.rows && s.rows[input.requestId].issue == Some(first)
    ensures input.requestId in Next(s, StoreFound(2)).rows
    ensures Next(s, StoreFound(2)).rows[input.requestId].issue == Some(second)
  {
    PendingReached(input, first.number);
    s := Pending(input, first.number);
    SearcherReached(s, 1, input);
    s := s.(calls := s.calls[1 := Call(input, Searching)]);
    SearcherReached(s, 2, input);
    s := s.(calls := s.calls[2 := Call(input, Searching)]);
    assert s.created[0].id == input.requestId && s.created[0].number == first.number;
    ReachNext(s, FinishSearch(1, Some(first)));
    s := Next(s, FinishSearch(1, Some(first)));
    ReachNext(s, FinishSearch(2, Some(second)));
    s := Next(s, FinishSearch(2, Some(second)));
    ReachNext(s, StoreFound(1));
    s := Next(s, StoreFound(1));
  }
}
