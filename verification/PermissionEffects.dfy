/** What each step of the permission protocol does to each request, field by field, and what a handler adds up to. */
module PermissionEffects {
  import opened Basics
  import opened PermissionProtocol
  import opened PermissionSessions

  /** An answer is taken for the request, and nothing else changes. */
  predicate Takes(s: State, t: State, serial: nat, outcome: Outcome, remember: Option<string>) {
    && |t.place| == |s.place| && serial < |t.place| && t.place[serial] == Flying
    && (forall i | 0 <= i < |s.place| && i != serial :: t.place[i] == s.place[i])
    && serial in t.flying && t.flying[serial] == Flight(outcome, remember)
    && t.flying - {serial} == s.flying - {serial}
    && t.answers == s.answers && t.allowed == s.allowed && t.requests == s.requests && t.policy == s.policy
  }

  /** The request waits for the person, and nothing else changes. */
  predicate Waits(s: State, t: State, id: string, serial: nat, i: Interaction) {
    && |t.place| == |s.place| && serial < |t.place| && t.place[serial] == Pending(id)
    && (forall k | 0 <= k < |s.place| && k != serial :: t.place[k] == s.place[k])
    && t.interactions == s.interactions[id := i] && t.flying == s.flying
    && t.answers == s.answers && t.allowed == s.allowed && t.requests == s.requests && t.policy == s.policy
  }

  /**
   What is answered at once, without asking: under full access the first of allow and allow always, or
   cancelled; under Auto a command that was allowed before, if it can be allowed again; and when 64
   already wait, cancelled.
   */
  function AtOnce(r: Request, policy: Option<Policy>, allowed: set<string>, waiting: nat): Option<Outcome> {
    if "interaction_" <= r.toolCallId then (if waiting >= 64 then Some(Cancelled) else None)
    else if policy == Some(FullAccess) then
      Some(if "allow" in r.options then Selected(r.options["allow"])
           else if "allow_always" in r.options then Selected(r.options["allow_always"]) else Cancelled)
    else if policy == Some(Auto) && r.command.Some? && r.command.value in allowed && "allow" in r.options
      then Some(Selected(r.options["allow"]))
    else if waiting >= 64 then Some(Cancelled) else None
  }

  /** A question waits or is cancelled; a permission is decided with the policy read now. */
  lemma ArriveMeans(s: State, request: Request, id: string)
    requires Inv(s) && Enabled(s, Arrive(request, id))
    ensures
      var t, serial := Next(s, Arrive(request, id)), |s.place|;
      var arrived := s.(requests := s.requests + [request], place := s.place + [Deciding]);
      if "interaction_" <= request.toolCallId then
        && t.reader == None
        && if |s.interactions| >= 64 then Takes(arrived, t, serial, Cancelled, None) && t.interactions == s.interactions
           else Waits(arrived, t, id, serial, UserInput(serial, request.choices))
      else t == arrived.(reader := Some(Decision(serial, s.policy)))
  {
  }

  /** A permission that can be decided at once is never left waiting, and any other waits. */
  lemma DecideMeans(s: State, id: string)
    requires Inv(s) && Enabled(s, Decide(id)) && !("interaction_" <= s.requests[s.reader.value.serial].toolCallId)
    ensures
      var t, d := Next(s, Decide(id)), s.reader.value;
      var r := s.requests[d.serial];
      var outcome := AtOnce(r, d.policy, s.allowed, |s.interactions|);
      && t.reader == None
      && if outcome.Some? then Takes(s, t, d.serial, outcome.value, None) && t.interactions == s.interactions
         else Waits(s, t, id, d.serial, Native(d.serial, r.options, r.command))
  {
  }

  /** A reply takes the request away and answers with the option of that name, or with cancelled. */
  lemma ReplyMeans(s: State, id: string, behavior: string)
    requires Inv(s)
    ensures
      var t := Next(s, Reply(id, behavior));
      if id !in s.interactions then t == s
      else
        && t.interactions == s.interactions - {id}
        && match s.interactions[id]
           case Native(serial, options, command) =>
             var allows := behavior in options && (behavior == "allow" || behavior == "allow_always");
             Takes(s, t, serial, if behavior in options then Selected(options[behavior]) else Cancelled,
                   if allows then command else None)
           case UserInput(serial, _) => Takes(s, t, serial, Cancelled, None)
  {
    if id in s.interactions { assert PendingAt(s, id); }
  }

  /** Under Auto the command that a reply left is allowed from then on; otherwise it is forgotten. */
  lemma RememberMeans(s: State, serial: nat)
    requires Inv(s) && Enabled(s, Remember(serial))
    ensures
      var t, f := Next(s, Remember(serial)), s.flying[serial];
      && t.allowed == s.allowed + (if f.remember.Some? && s.policy == Some(Auto) then {f.remember.value} else {})
      && t == s.(allowed := t.allowed, flying := s.flying[serial := Flight(f.outcome, None)])
  {
  }

  /** An answer to a question selects the choice of that label; a permission of that id is dropped. */
  lemma AnswerQuestionMeans(s: State, id: string, answer: string)
    requires Inv(s)
    ensures
      var t := Next(s, AnswerQuestion(id, answer));
      if id !in s.interactions then t == s
      else
        && t.interactions == s.interactions - {id}
        && match s.interactions[id]
           case Native(serial, _, _) =>
             && serial < |s.place| && t == s.(interactions := t.interactions, place := s.place[serial := Dropped])
           case UserInput(serial, choices) =>
             Takes(s, t, serial, if answer in choices then Selected(choices[answer]) else Cancelled, None)
  {
    if id in s.interactions { assert PendingAt(s, id); }
  }

  /** Cancelling answers everything that waits, with cancelled, and leaves the rest. */
  lemma CancelMeans(s: State)
    requires Inv(s)
    ensures
      var t := Next(s, Cancel);
      && t.interactions == map[] && |t.place| == |s.place|
      && t == s.(interactions := t.interactions, place := t.place, flying := t.flying)
      && (forall i | 0 <= i < |s.place| :: t.place[i] == if s.place[i].Pending? then Flying else s.place[i])
      && (forall i :: i in s.flying ==> i in t.flying && t.flying[i] == s.flying[i])
      && (forall i :: i in t.flying && i !in s.flying ==>
            i < |s.place| && s.place[i].Pending? && t.flying[i] == Flight(Cancelled, None))
      && (forall i | 0 <= i < |s.place| && s.place[i].Pending? :: i in t.flying)
  {
    var t := Next(s, Cancel);
    forall i | i in t.flying && i !in s.flying ensures i < |s.place| && s.place[i].Pending? {
      var id :| id in s.interactions && s.interactions[id].serial == i;
      assert PendingAt(s, id);
    }
    forall i | 0 <= i < |s.place| && s.place[i].Pending? ensures i in t.flying { assert Placed(s, i); }
  }

  /** A write that works, for a request with a valid id, is the answer; any other loses it. */
  lemma WriteMeans(s: State, serial: nat, ok: bool)
    requires Inv(s) && Enabled(s, Write(serial, ok))
    ensures serial < |s.place| && s.flying[serial].remember == None
    ensures
      var t := Next(s, Write(serial, ok));
      if ok && s.requests[serial].validId then
        t == s.(flying := s.flying - {serial}, place := s.place[serial := Answered],
                answers := s.answers + [Answer(serial, s.flying[serial].outcome)])
      else t == s.(flying := s.flying - {serial}, place := s.place[serial := Failed])
  {
    assert InFlight(s, serial);
  }

  /** A policy counts from then on: under full access a permission that arrives next is never left waiting. */
  lemma FullAccessNeverAsks(s: State, request: Request, id: string, other: string)
    requires Inv(s) && s.reader == None && id !in s.interactions && other !in s.interactions
    requires !("interaction_" <= request.toolCallId)
    ensures
      var open := Next(s, SetPolicy(FullAccess));
      && open == s.(policy := Some(FullAccess)) && Inv(open) && Enabled(open, Arrive(request, id))
      && var arrived := Next(open, Arrive(request, id));
         && Inv(arrived) && Enabled(arrived, Decide(other))
         && var t := Next(arrived, Decide(other));
            && t.interactions == s.interactions && |s.place| in t.flying
            && t.flying[|s.place|].outcome == FirstAllowed(request.options)
  {
    StepKeeps(s, SetPolicy(FullAccess));
    var open := Next(s, SetPolicy(FullAccess));
    ArriveMeans(open, request, id);
    StepKeeps(open, Arrive(request, id));
    DecideMeans(Next(open, Arrive(request, id)), other);
  }

  // ------------------------------------------------------------ over runs

  /** A command is allowed exactly when an earlier step of the run remembered it under Auto. */
  lemma {:induction false} AllowedWhenGranted(steps: seq<Step>, command: string)
    requires After(steps).Some?
    ensures command in After(steps).value.allowed <==> exists j :: GrantedAt(steps, j, command)
  {
    if command in After(steps).value.allowed {
      var j := AllowedWasGranted(steps, command);
    }
    forall j | GrantedAt(steps, j, command) ensures command in After(steps).value.allowed {
      GrantedIsAllowed(steps, j, command);
    }
  }

  ghost predicate AllowedAfter(steps: seq<Step>, command: string) {
    After(steps).Some? && command in After(steps).value.allowed
  }

  /** Nothing is ever forgotten. */
  lemma {:induction false} GrantedIsAllowed(steps: seq<Step>, j: nat, command: string)
    requires After(steps).Some? && GrantedAt(steps, j, command)
    ensures AllowedAfter(steps, command)
    decreases |steps|
  {
    if j < |steps| - 1 {
      GrantedInFront(steps, j, command);
      RunOfFront(steps);
      GrantedIsAllowed(steps[..|steps| - 1], j, command);
    }
    AllowedNext(steps, command);
  }

  lemma RunOfFront(steps: seq<Step>)
    requires After(steps).Some? && steps != []
    ensures After(steps[..|steps| - 1]).Some?
  {
  }

  lemma GrantedInFront(steps: seq<Step>, j: nat, command: string)
    requires GrantedAt(steps, j, command) && j < |steps| - 1
    ensures GrantedAt(steps[..|steps| - 1], j, command)
  {
    assert steps[..|steps| - 1][..j] == steps[..j];
  }

  lemma AllowedNext(steps: seq<Step>, command: string)
    requires After(steps).Some? && steps != []
    ensures AllowedAfter(steps, command) <==>
              AllowedAfter(steps[..|steps| - 1], command) || GrantedAt(steps, |steps| - 1, command)
  {
    var n := |steps| - 1;
    StepAllowed(After(steps[..n]).value, steps[n], command);
  }

  /** What the person allowed under Auto is not asked again: the same command is allowed at once. */
  lemma AllowedIsNotAskedAgain(steps: seq<Step>, j: nat, command: string, id: string)
    requires After(steps).Some? && GrantedAt(steps, j, command) && Enabled(After(steps).value, Decide(id))
    requires
      var s := After(steps).value;
      var r := s.requests[s.reader.value.serial];
      s.reader.value.policy == Some(Auto) && r.command == Some(command) && "allow" in r.options
    ensures
      var s := After(steps).value;
      var d, t := s.reader.value, Next(s, Decide(id));
      && d.serial in t.flying && t.flying[d.serial].outcome == Selected(s.requests[d.serial].options["allow"])
      && t.interactions == s.interactions
  {
    GrantedIsAllowed(steps, j, command);
  }

  // ---------------------------------------------------------------- handlers

  predicate Idle(s: State) {
    s.reader == None && s.flying == map[]
  }

  /** How a request stands that was answered with this outcome. */
  predicate Ends(t: State, place: seq<Place>, answers: seq<Answer>, serial: nat, outcome: Outcome, ok: bool)
    requires serial < |place| <= |t.requests|
  {
    var written := ok && t.requests[serial].validId;
    && t.place == place[serial := if written then Answered else Failed]
    && t.answers == answers + (if written then [Answer(serial, outcome)] else [])
    && Idle(t)
  }

  ghost predicate HandledIs(s: State, t: State, request: Request, id: string, ok: bool)
    requires |s.place| == |s.requests|
  {
    var serial, outcome := |s.place|, AtOnce(request, s.policy, s.allowed, |s.interactions|);
    && t.requests == s.requests + [request] && t.allowed == s.allowed && t.policy == s.policy
    && if outcome.Some? then
         t.interactions == s.interactions && Ends(t, s.place + [Deciding], s.answers, serial, outcome.value, ok)
       else
         && t.place == s.place + [Pending(id)] && t.answers == s.answers && Idle(t)
         && t.interactions == s.interactions[id := if "interaction_" <= request.toolCallId
                                                   then UserInput(serial, request.choices)
                                                   else Native(serial, request.options, request.command)]
  }

  /** `handle_permission` answers at once or leaves the request waiting. */
  lemma HandledMeans(s: State, request: Request, id: string, ok: bool)
    requires Inv(s) && Idle(s) && id !in s.interactions
    ensures HandledIs(s, Handled(s, request, id, ok), request, id, ok)
  {
    if "interaction_" <= request.toolCallId {
      QuestionHandled(s, request, id, ok);
    } else {
      PermissionHandled(s, request, id, ok);
    }
  }

  lemma QuestionHandled(s: State, request: Request, id: string, ok: bool)
    requires Inv(s) && Idle(s) && id !in s.interactions && "interaction_" <= request.toolCallId
    ensures HandledIs(s, Handled(s, request, id, ok), request, id, ok)
  {
    ArriveMeans(s, request, id);
    var arrived := s.(requests := s.requests + [request], place := s.place + [Deciding]);
    var t := Next(s, Arrive(request, id));
    if |s.interactions| >= 64 { TakenEnds(arrived, t, |s.place|, Cancelled, ok); }
  }

  lemma PermissionHandled(s: State, request: Request, id: string, ok: bool)
    requires Inv(s) && Idle(s) && id !in s.interactions && !("interaction_" <= request.toolCallId)
    ensures HandledIs(s, Handled(s, request, id, ok), request, id, ok)
  {
    ArriveMeans(s, request, id);
    var arrived := Next(s, Arrive(request, id));
    StepKeeps(s, Arrive(request, id));
    DecideMeans(arrived, id);
    var t, serial := Next(arrived, Decide(id)), |s.place|;
    var outcome := AtOnce(request, s.policy, s.allowed, |s.interactions|);
    if outcome.Some? { TakenEnds(arrived, t, serial, outcome.value, ok); }
  }

  /** An answer taken while nothing else flies is written at once. */
  lemma TakenEnds(s: State, t: State, serial: nat, outcome: Outcome, ok: bool)
    requires Takes(s, t, serial, outcome, None) && s.flying == map[] && t.reader == None && |s.place| == |s.requests|
    ensures
      var end := Finish(t, serial, ok);
      && Ends(end, s.place, s.answers, serial, outcome, ok) && end.requests == s.requests
      && end.interactions == t.interactions && end.allowed == s.allowed && end.policy == s.policy
  {
    var end := Finish(t, serial, ok);
    assert end.place == s.place[serial := end.place[serial]];
  }

  /** `resolve_permission` answers with the option named, and under Auto remembers an allowed command. */
  lemma RepliedMeans(s: State, id: string, behavior: string, ok: bool)
    requires Inv(s) && Idle(s) && id in s.interactions
    ensures s.interactions[id].serial < |s.place|
    ensures
      var t, i := Replied(s, id, behavior, ok), s.interactions[id];
      var r := s.requests[i.serial];
      var known := i.Native? && behavior in r.options;
      && t.interactions == s.interactions - {id} && t.requests == s.requests && t.policy == s.policy
      && Ends(t, s.place, s.answers, i.serial, if known then Selected(r.options[behavior]) else Cancelled, ok)
      && t.allowed == s.allowed + (if known && (behavior == "allow" || behavior == "allow_always")
                                      && s.policy == Some(Auto) && r.command.Some?
                                   then {r.command.value} else {})
  {
    assert PendingAt(s, id);
  }

  /** `resolve_user_input` answers a question with the choice named, and drops a permission. */
  lemma QuestionAnsweredMeans(s: State, id: string, answer: string, ok: bool)
    requires Inv(s) && Idle(s) && id in s.interactions
    ensures s.interactions[id].serial < |s.place|
    ensures
      var t, i := QuestionAnswered(s, id, answer, ok), s.interactions[id];
      var r := s.requests[i.serial];
      && t.interactions == s.interactions - {id} && t.requests == s.requests && t.policy == s.policy
      && t.allowed == s.allowed
      && if i.Native? then t.place == s.place[i.serial := Dropped] && t.answers == s.answers && Idle(t)
         else Ends(t, s.place, s.answers, i.serial,
                   if answer in r.choices then Selected(r.choices[answer]) else Cancelled, ok)
  {
    assert PendingAt(s, id);
  }
}
