/**
 The session object: its methods run without interruption here, as the same steps in a row that
 `PermissionProtocol` interleaves.
 */
module PermissionSessions {
  import opened Basics
  import opened PermissionProtocol

  datatype Resolution = Done | NotPending | NotAQuestion | NotWritten

  /** The write that ends a handler, if there is an answer to write. */
  function Finish(s: State, serial: nat, ok: bool): State
    requires serial < |s.place| == |s.requests|
  {
    if serial in s.flying then WriteStep(s, serial, ok) else s
  }

  function Handled(s: State, request: Request, id: string, ok: bool): State
    requires |s.place| == |s.requests|
  {
    var arrived := ArriveStep(s, request, id);
    Finish(if IsQuestion(request) then arrived else DecideStep(arrived, id), |s.place|, ok)
  }

  function Replied(s: State, id: string, behavior: string, ok: bool): State
    requires id in s.interactions && s.interactions[id].serial < |s.place| == |s.requests|
  {
    var serial := s.interactions[id].serial;
    Finish(RememberStep(ReplyStep(s, id, behavior), serial), serial, ok)
  }

  function QuestionAnswered(s: State, id: string, answer: string, ok: bool): State
    requires id in s.interactions && s.interactions[id].serial < |s.place| == |s.requests|
  {
    Finish(AnswerQuestionStep(s, id, answer), s.interactions[id].serial, ok)
  }

  class SessionRuntime {
    var interactions: map<string, Interaction>
    var allowedCommands: set<string>
    var approvalPolicy: Option<Policy>
    var answers: seq<Answer>
    var requests: seq<Request>
    ghost var place: seq<Place>

    ghost function View(): State
      reads this
    {
      State(interactions, allowedCommands, approvalPolicy, None, map[], answers, requests, place)
    }

    constructor ()
      ensures View() == Start
    {
      interactions, allowedCommands, approvalPolicy, answers, requests, place := map[], {}, None, [], [], [];
    }

    /** `result`, for an answer that was just chosen. */
    method Result(serial: nat, outcome: Outcome, ok: bool) returns (written: bool)
      requires serial < |place| == |requests|
      modifies this`answers, this`place
      ensures written == (ok && requests[serial].validId)
      ensures View() == Finish(Fly(old(View()), serial, outcome, None), serial, ok)
    {
      ghost var was := place;
      written := requests[serial].validId && ok;
      if written { answers := answers + [Answer(serial, outcome)]; }
      place := place[serial := if written then Answered else Failed];
      assert was[serial := Flying][serial := place[serial]] == place;
      assert map[serial := Flight(outcome, None)] - {serial} == map[];
    }

    /** `insert_interaction`. */
    method InsertInteraction(id: string, i: Interaction) returns (inserted: bool)
      requires i.serial < |place|
      modifies this`interactions, this`place
      ensures inserted == (|old(interactions)| < MAX_PENDING_INTERACTIONS)
      ensures interactions == if inserted then old(interactions)[id := i] else old(interactions)
      ensures place == if inserted then old(place)[i.serial := Pending(id)] else old(place)
    {
      if |interactions| >= MAX_PENDING_INTERACTIONS { return false; }
      interactions := interactions[id := i];
      place := place[i.serial := Pending(id)];
      inserted := true;
    }

    method InsertOrCancel(id: string, i: Interaction, ok: bool)
      requires i.serial < |place| == |requests|
      modifies this`interactions, this`answers, this`place
      ensures View() == Finish(Insert(old(View()), id, i), i.serial, ok)
    {
      var inserted := InsertInteraction(id, i);
      if !inserted { var _ := Result(i.serial, Cancelled, ok); }
    }

    /** `handle_permission`. */
    method HandlePermission(request: Request, id: string, ok: bool)
      requires Inv(View()) && id !in interactions
      modifies this
      ensures View() == Handled(old(View()), request, id, ok) && Inv(View())
    {
      HandledKeeps(View(), request, id, ok);
      var serial := |requests|;
      requests := requests + [request];
      place := place + [Deciding];
      if IsQuestion(request) {
        InsertOrCancel(id, UserInput(serial, request.choices), ok);
      } else {
        DecidePermission(serial, request, id, ok);
      }
    }

    method DecidePermission(serial: nat, request: Request, id: string, ok: bool)
      requires serial < |place| == |requests| && requests[serial] == request
      modifies this`interactions, this`answers, this`place
      ensures View() == Finish(DecideStep(old(View()).(reader := Some(Decision(serial, approvalPolicy))), id),
              serial, ok)
    {
      assert View() == View().(reader := Some(Decision(serial, approvalPolicy))).(reader := None);
      var policy := approvalPolicy;
      var repeated := RepeatedOption(policy, request.command, allowedCommands, request.options);
      if repeated.Some? {
        var _ := Result(serial, Selected(repeated.value), ok);
        return;
      }
      var automatic := AutomaticOption(policy, request.options);
      if automatic.Some? {
        var _ := Result(serial, automatic.value, ok);
        return;
      }
      InsertOrCancel(id, Native(serial, request.options, request.command), ok);
    }

    /** `resolve_permission`. */
    method ResolvePermission(id: string, behavior: string, ok: bool) returns (outcome: Resolution)
      requires Inv(View())
      modifies this
      ensures id !in old(interactions) ==> outcome == NotPending && View() == old(View())
      ensures id in old(interactions) ==>
                && old(interactions)[id].serial < |old(place)|
                && View() == Replied(old(View()), id, behavior, ok)
                && outcome == if ok && old(requests)[old(interactions)[id].serial].validId then Done else NotWritten
      ensures Inv(View())
    {
      if id !in interactions { return NotPending; }
      RepliedKeeps(View(), id, behavior, ok);
      var interaction := interactions[id];
      interactions := interactions - {id};
      var written;
      match interaction {
        case Native(serial, options, command) =>
          written := Respond(serial, OutcomeOf(Get(options, behavior)), ToRemember(interaction, behavior), ok);
        case UserInput(serial, _) =>
          written := Respond(serial, Cancelled, None, ok);
      }
      outcome := if written then Done else NotWritten;
    }

    /** Remembers the command if the policy is `Auto` and writes the answer. */
    method Respond(serial: nat, outcome: Outcome, remember: Option<string>, ok: bool) returns (written: bool)
      requires serial < |place| == |requests|
      modifies this`allowedCommands, this`answers, this`place
      ensures written == (ok && requests[serial].validId)
      ensures View() == Finish(RememberStep(Fly(old(View()), serial, outcome, remember), serial), serial, ok)
    {
      if remember.Some? && approvalPolicy == Some(Auto) {
        allowedCommands := allowedCommands + {remember.value};
      }
      written := Result(serial, outcome, ok);
      assert map[serial := Flight(outcome, remember)][serial := Flight(outcome, None)]
        == map[serial := Flight(outcome, None)];
    }

    /** `resolve_user_input`. */
    method ResolveUserInput(id: string, answer: string, ok: bool) returns (outcome: Resolution)
      requires Inv(View())
      modifies this
      ensures id !in old(interactions) ==> outcome == NotPending && View() == old(View())
      ensures id in old(interactions) ==>
                && old(interactions)[id].serial < |old(place)|
                     && (outcome == NotAQuestion <==> old(interactions)[id].Native?)
                && View() == QuestionAnswered(old(View()), id, answer, ok)
                && (outcome == Done <==> old(interactions)[id].UserInput? && ok
                                         && old(requests)[old(interactions)[id].serial].validId)
      ensures Inv(View())
    {
      if id !in interactions { return NotPending; }
      ghost var before := View();
      QuestionAnsweredKeeps(before, id, answer, ok);
      var interaction := interactions[id];
      interactions := interactions - {id};
      match interaction
      case Native(serial, _, _) =>
        place := place[serial := Dropped];
        outcome := NotAQuestion;
      case UserInput(serial, choices) =>
        var written := Result(serial, OutcomeOf(Get(choices, answer)), ok);
        outcome := if written then Done else NotWritten;
    }

    /** `cancel_interactions`: the drain, then a cancelled answer to each, in any order. */
    method CancelInteractions(works: nat -> bool)
      requires Inv(View())
      modifies this`interactions, this`answers, this`place
      ensures Inv(View()) && interactions == map[] && CancelledAfter(answers, |old(answers)|)
      ensures old(answers) <= answers && |place| == |old(place)| == |requests|
      ensures CancelledPlaces(place, old(place), {}, requests, works)
    {
      ghost var start := View();
      CancelKeeps(start);
      StartsDistinct(start);
      DrainedPlaces(start, works);
      var pending := interactions;
      interactions := map[];
      place := CancelStep(start).place;
      assert View().(flying := CancelStep(start).flying) == CancelStep(start);
      WriteAll(pending, CancelStep(start).flying, start.place, works);
    }

    method WriteAll(
      drained: map<string, Interaction>, ghost drainedFlying: map<nat, Flight>, ghost was: seq<Place>,
      works: nat -> bool)
      requires Inv(View().(flying := drainedFlying)) && interactions == map[]
      requires drainedFlying.Keys == Serials(drained) && Distinct(drained) && AllCancelled(drainedFlying)
      requires CancelledPlaces(place, was, Serials(drained), requests, works) && AllPending(was, Serials(drained))
      modifies this`answers, this`place
      ensures Inv(View()) && old(answers) <= answers && CancelledAfter(answers, |old(answers)|)
      ensures CancelledPlaces(place, was, {}, requests, works)
    {
      var pending := drained;
      ghost var flying := drainedFlying;
      while pending != map[]
        invariant Inv(View().(flying := flying)) && old(answers) <= answers && CancelledAfter(answers, |old(answers)|)
        invariant flying.Keys == Serials(pending) && Distinct(pending) && AllCancelled(flying)
        invariant CancelledPlaces(place, was, Serials(pending), requests, works) && AllPending(was, Serials(pending))
        decreases |pending|
      {
        var id :| id in pending;
        OneLess(pending, id);
        var serial := pending[id].serial;
        WrittenPlaces(place, was, Serials(pending), requests, works, serial);
        ghost var before := answers;
        flying := WriteOne(flying, serial, works(serial));
        CancelledMore(before, answers, |old(answers)|);
        pending := pending - {id};
      }
      assert Serials(pending) == {};
      assert flying == map[];
      assert View().(flying := flying) == View();
    }

    /** One of the drained answers. */
    method WriteOne(ghost flying: map<nat, Flight>, serial: nat, ok: bool) returns (ghost left: map<nat, Flight>)
      requires Inv(View().(flying := flying)) && serial in flying && flying[serial].outcome == Cancelled
      modifies this`answers, this`place
      ensures left == flying - {serial} && Inv(View().(flying := left)) && old(answers) <= answers
      ensures serial < |old(place)| == |requests| && CancelledAfter(answers, |old(answers)|)
      ensures place == old(place)[serial := if ok && requests[serial].validId then Answered else Failed]
    {
      assert InFlight(View().(flying := flying), serial);
      WriteKeeps(View().(flying := flying), serial, ok);
      left := flying - {serial};
      ghost var next := WriteStep(View().(flying := flying), serial, ok);
      var _ := Result(serial, Cancelled, ok);
      assert View().(flying := left) == next;
    }
  }

  /** Where every request stands while drained ones fly: a pending one is answered if its write works. */
  ghost predicate CancelledPlaces(place: seq<Place>, was: seq<Place>, flying: set<nat>,
    requests: seq<Request>, works: nat -> bool) {
    && |place| == |was| == |requests|
    && forall i | 0 <= i < |place| ::
         place[i] == if !was[i].Pending? then was[i]
                     else if i in flying then Flying
                     else if works(i) && requests[i].validId then Answered else Failed
  }

  /** Whatever was answered after the first `n` answers was answered with cancelled. */
  ghost predicate CancelledAfter(answers: seq<Answer>, n: nat) {
    forall k | n <= k < |answers| :: answers[k].outcome == Cancelled
  }

  lemma CancelledMore(some: seq<Answer>, more: seq<Answer>, n: nat)
    requires some <= more && CancelledAfter(some, n) && CancelledAfter(more, |some|)
    ensures CancelledAfter(more, n)
  {
  }

  ghost predicate AllPending(was: seq<Place>, serials: set<nat>) {
    forall i | i in serials :: i < |was| && was[i].Pending?
  }

  ghost predicate AllCancelled(flying: map<nat, Flight>) {
    forall i | i in flying :: flying[i].outcome == Cancelled
  }

  lemma WrittenPlaces(place: seq<Place>, was: seq<Place>, flying: set<nat>,
    requests: seq<Request>, works: nat -> bool, serial: nat)
    requires CancelledPlaces(place, was, flying, requests, works) && serial in flying && AllPending(was, flying)
    ensures CancelledPlaces(
              place[serial := if works(serial) && requests[serial].validId then Answered else Failed],
              was, flying - {serial}, requests, works)
  {
  }

  ghost predicate Distinct(pending: map<string, Interaction>) {
    forall j, k | j in pending && k in pending && pending[j].serial == pending[k].serial :: j == k
  }

  lemma OneLess(pending: map<string, Interaction>, id: string)
    requires Distinct(pending) && id in pending
    ensures Distinct(pending - {id}) && Serials(pending - {id}) == Serials(pending) - {pending[id].serial}
    ensures pending[id].serial in Serials(pending)
  {
    forall n | n in Serials(pending) - {pending[id].serial} ensures n in Serials(pending - {id}) {
      var k :| k in pending && pending[k].serial == n;
      assert k in pending - {id};
    }
    forall n | n in Serials(pending - {id}) ensures n in Serials(pending) - {pending[id].serial} {
      var k :| k in pending - {id} && (pending - {id})[k].serial == n;
    }
  }

  lemma StartsDistinct(s: State)
    requires Inv(s) && s.flying == map[]
    ensures Distinct(s.interactions) && CancelStep(s).flying.Keys == Serials(s.interactions)
    ensures AllPending(s.place, Serials(s.interactions)) && AllCancelled(CancelStep(s).flying)
  {
    forall j, k | j in s.interactions && k in s.interactions && s.interactions[j].serial == s.interactions[k].serial
      ensures j == k {
      assert PendingAt(s, j) && PendingAt(s, k);
    }
    forall i | i in Serials(s.interactions) ensures i < |s.place| && s.place[i].Pending? {
      var id :| id in s.interactions && s.interactions[id].serial == i;
      assert PendingAt(s, id);
    }
  }

  lemma DrainedPlaces(s: State, works: nat -> bool)
    requires Inv(s)
    ensures CancelledPlaces(CancelStep(s).place, s.place, Serials(s.interactions), s.requests, works)
  {
    forall i | 0 <= i < |s.place| && s.place[i].Pending? ensures i in Serials(s.interactions) { assert Placed(s, i); }
  }

  lemma FinishKeeps(s: State, serial: nat, ok: bool)
    requires Inv(s) && serial < |s.place|
    ensures Inv(Finish(s, serial, ok))
  {
    if serial in s.flying {
      assert InFlight(s, serial);
      WriteKeeps(s, serial, ok);
    }
  }

  lemma HandledKeeps(s: State, request: Request, id: string, ok: bool)
    requires Inv(s) && s.reader == None && id !in s.interactions
    ensures Inv(Handled(s, request, id, ok))
  {
    ArriveKeeps(s, request, id);
    var arrived := ArriveStep(s, request, id);
    if IsQuestion(request) {
      FinishKeeps(arrived, |s.place|, ok);
    } else {
      DecideKeeps(arrived, id);
      FinishKeeps(DecideStep(arrived, id), |s.place|, ok);
    }
  }

  lemma RepliedKeeps(s: State, id: string, behavior: string, ok: bool)
    requires Inv(s) && id in s.interactions
    ensures s.interactions[id].serial < |s.place| && Inv(Replied(s, id, behavior, ok))
  {
    assert PendingAt(s, id);
    var serial := s.interactions[id].serial;
    ReplyKeeps(s, id, behavior);
    RememberKeeps(ReplyStep(s, id, behavior), serial);
    FinishKeeps(RememberStep(ReplyStep(s, id, behavior), serial), serial, ok);
  }

  lemma QuestionAnsweredKeeps(s: State, id: string, answer: string, ok: bool)
    requires Inv(s) && id in s.interactions
    ensures s.interactions[id].serial < |s.place| && Inv(QuestionAnswered(s, id, answer, ok))
  {
    assert PendingAt(s, id);
    AnswerQuestionKeeps(s, id, answer);
    FinishKeeps(AnswerQuestionStep(s, id, answer), s.interactions[id].serial, ok);
  }
}
