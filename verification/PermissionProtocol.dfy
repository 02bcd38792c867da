/**
 The permission requests of one agent session.  Every step is one stretch between two awaits, so
 runs interleave the reader task, replies from the person, cancellation and policy changes.
 `place` is history: where each request, by arrival number, stands.
 */
module PermissionProtocol {
  import opened Basics

  const MAX_PENDING_INTERACTIONS: nat := 64
  const QUESTION_PREFIX := "interaction_"

  datatype Policy = ReadOnly | Ask | Auto | FullAccess

  /** What the agent asks: the options by behavior, and by label for a question. */
  datatype Request = Request(
    toolCallId: string, options: map<string, string>, choices: map<string, string>,
      command: Option<string>, validId: bool)

  datatype Interaction =
    | Native(serial: nat, options: map<string, string>, command: Option<string>)
    | UserInput(serial: nat, choices: map<string, string>)

  datatype Outcome = Selected(option: string) | Cancelled

  /** An answer taken but not yet written; `remember` is the command it may add to the allowed ones. */
  datatype Flight = Flight(outcome: Outcome, remember: Option<string>)

  datatype Decision = Decision(serial: nat, policy: Option<Policy>)

  datatype Answer = Answer(serial: nat, outcome: Outcome)

  datatype Place = Deciding | Pending(id: string) | Flying | Answered | Dropped | Failed

  datatype State = State(
    interactions: map<string, Interaction>,
    allowed: set<string>,
    policy: Option<Policy>,
    reader: Option<Decision>,
    flying: map<nat, Flight>,
    answers: seq<Answer>,
    requests: seq<Request>,
    place: seq<Place>)

  datatype Step =
    | Arrive(request: Request, id: string)
    | Decide(id: string)
    | Reply(id: string, behavior: string)
    | Remember(serial: nat)
    | AnswerQuestion(id: string, answer: string)
    | Cancel
    | Write(serial: nat, ok: bool)
    | SetPolicy(policy: Policy)

  const Start := State(map[], {}, None, None, map[], [], [], [])

  // ---------------------------------------------------------------- decisions

  function Get(options: map<string, string>, key: string): Option<string> {
    if key in options then Some(options[key]) else None
  }

  /** `automatic_permission_option`: under full access the first of allow and allow always. */
  function AutomaticOption(policy: Option<Policy>, options: map<string, string>): Option<Outcome> {
    if policy != Some(FullAccess) then None
    else if "allow" in options then Some(Selected(options["allow"]))
    else if "allow_always" in options then Some(Selected(options["allow_always"]))
    else Some(Cancelled)
  }

  /** `repeated_command_option`. */
  function RepeatedOption(policy: Option<Policy>, command: Option<string>,
    allowed: set<string>, options: map<string, string>): Option<string> {
    if policy == Some(Auto) && command.Some? && command.value in allowed then Get(options, "allow") else None
  }

  function OutcomeOf(option: Option<string>): Outcome {
    if option.Some? then Selected(option.value) else Cancelled
  }

  predicate IsQuestion(r: Request) {
    QUESTION_PREFIX <= r.toolCallId
  }

  // -------------------------------------------------------------------- steps

  function Fly(s: State, serial: nat, outcome: Outcome, remember: Option<string>): State
    requires serial < |s.place|
  {
    s.(flying := s.flying[serial := Flight(outcome, remember)], place := s.place[serial := Flying])
  }

  /** `insert_interaction`, and the cancelled answer when there is no room. */
  function Insert(s: State, id: string, i: Interaction): State
    requires i.serial < |s.place|
  {
    if |s.interactions| >= MAX_PENDING_INTERACTIONS then Fly(s, i.serial, Cancelled, None)
    else s.(interactions := s.interactions[id := i], place := s.place[i.serial := Pending(id)])
  }

  function ArriveStep(s: State, request: Request, id: string): State {
    var arrived := s.(requests := s.requests + [request], place := s.place + [Deciding]);
    if IsQuestion(request) then Insert(arrived, id, UserInput(|s.place|, request.choices))
    else arrived.(reader := Some(Decision(|s.place|, s.policy)))
  }

  /** The end of `handle_permission`, with the policy read before. */
  function DecideStep(s: State, id: string): State
    requires s.reader.Some? && s.reader.value.serial < |s.place| == |s.requests|
  {
    var d := s.reader.value;
    var r := s.requests[d.serial];
    var read := s.(reader := None);
    var repeated := RepeatedOption(d.policy, r.command, s.allowed, r.options);
    if repeated.Some? then Fly(read, d.serial, Selected(repeated.value), None) else
    match AutomaticOption(d.policy, r.options)
    case Some(outcome) => Fly(read, d.serial, outcome, None)
    case None => Insert(read, id, Native(d.serial, r.options, r.command))
  }

  function Without(s: State, id: string): State {
    s.(interactions := s.interactions - {id})
  }

  /** The command that a reply to a native request asks to remember. */
  function ToRemember(i: Interaction, behavior: string): Option<string>
    requires i.Native?
  {
    if behavior in i.options && (behavior == "allow" || behavior == "allow_always") then i.command else None
  }

  /** `resolve_permission` up to the removal and the choice of the answer. */
  function ReplyStep(s: State, id: string, behavior: string): State
    requires id in s.interactions ==> s.interactions[id].serial < |s.place|
  {
    if id !in s.interactions then s else
    match s.interactions[id]
    case Native(serial, options, command) =>
      Fly(Without(s, id), serial, OutcomeOf(Get(options, behavior)), ToRemember(s.interactions[id], behavior))
    case UserInput(serial, _) => Fly(Without(s, id), serial, Cancelled, None)
  }

  /** Only what is allowed while the policy is `Auto` is remembered. */
  function RememberStep(s: State, serial: nat): State
    requires serial in s.flying
  {
    var f := s.flying[serial];
    var forgotten := s.(flying := s.flying[serial := f.(remember := None)]);
    if f.remember.Some? && s.policy == Some(Auto)
      then forgotten.(allowed := s.allowed + {f.remember.value}) else forgotten
  }

  function Drop(s: State, id: string): State
    requires id in s.interactions && s.interactions[id].serial < |s.place|
  {
    Without(s, id).(place := s.place[s.interactions[id].serial := Dropped])
  }

  /** `resolve_user_input` up to the choice of the answer; a native request is removed all the same. */
  function AnswerQuestionStep(s: State, id: string, answer: string): State
    requires id in s.interactions ==> s.interactions[id].serial < |s.place|
  {
    if id !in s.interactions then s else
    match s.interactions[id]
    case Native(_, _, _) => Drop(s, id)
    case UserInput(serial, choices) => Fly(Without(s, id), serial, OutcomeOf(Get(choices, answer)), None)
  }

  function Serials(interactions: map<string, Interaction>): set<nat> {
    set id | id in interactions :: interactions[id].serial
  }

  /** `cancel_interactions`: the drain. */
  function CancelStep(s: State): State {
    s.(interactions := map[],
       flying := map i | i in s.flying.Keys + Serials(s.interactions) ::
                   if i in s.flying then s.flying[i] else Flight(Cancelled, None),
       place := seq(|s.place|, i requires 0 <= i < |s.place| => if s.place[i].Pending? then Flying else s.place[i]))
  }

  /** `result`: an invalid id is not answered, and a write may fail. */
  function WriteStep(s: State, serial: nat, ok: bool): State
    requires serial in s.flying && serial < |s.place| == |s.requests|
  {
    var landed := s.(flying := s.flying - {serial});
    if ok && s.requests[serial].validId then
      landed.(answers := s.answers + [Answer(serial, s.flying[serial].outcome)], place := s.place[serial := Answered])
    else landed.(place := s.place[serial := Failed])
  }

  // ---------------------------------------------------------------- invariant

  ghost predicate Logged(answers: seq<Answer>, serial: nat) {
    exists k :: 0 <= k < |answers| && answers[k].serial == serial
  }

  /** An answer selects an option that its request offered. */
  predicate Offered(r: Request, o: Outcome) {
    o.Selected? ==> o.option in r.options.Values || o.option in r.choices.Values
  }

  /** A pending interaction is that of its request. */
  ghost predicate PendingAt(s: State, id: string)
    requires id in s.interactions && |s.requests| == |s.place|
  {
    var i := s.interactions[id];
    && i.serial < |s.place| && s.place[i.serial] == Pending(id)
    && match i
       case Native(n, options, command) => options == s.requests[n].options && command == s.requests[n].command
       case UserInput(n, choices) => choices == s.requests[n].choices
  }

  ghost predicate Placed(s: State, i: nat)
    requires i < |s.place|
  {
    match s.place[i]
    case Deciding => s.reader.Some? && s.reader.value.serial == i
    case Pending(id) => id in s.interactions && s.interactions[id].serial == i
    case Flying => i in s.flying
    case Answered => Logged(s.answers, i)
    case Dropped => true
    case Failed => true
  }

  ghost predicate InFlight(s: State, i: nat)
    requires i in s.flying && |s.requests| == |s.place|
  {
    i < |s.place| && s.place[i] == Flying && Offered(s.requests[i], s.flying[i].outcome)
  }

  ghost predicate IsLogged(s: State, a: Answer)
    requires |s.requests| == |s.place|
  {
    a.serial < |s.place| && s.place[a.serial] == Answered && Offered(s.requests[a.serial], a.outcome)
  }

  ghost predicate Inv(s: State) {
    && |s.requests| == |s.place|
    && |s.interactions| <= MAX_PENDING_INTERACTIONS
    && (s.reader.Some? ==> s.reader.value.serial < |s.place| && s.place[s.reader.value.serial] == Deciding)
    && (forall id {:trigger PendingAt(s, id)} | id in s.interactions :: PendingAt(s, id))
    && (forall i {:trigger InFlight(s, i)} | i in s.flying :: InFlight(s, i))
    && (forall a {:trigger IsLogged(s, a)} | a in s.answers :: IsLogged(s, a))
    && (forall i {:trigger Placed(s, i)} | 0 <= i < |s.place| :: Placed(s, i))
    && (forall j, k | 0 <= j < k < |s.answers| :: s.answers[j].serial != s.answers[k].serial)
  }

  predicate Enabled(s: State, step: Step) {
    match step
    case Arrive(_, id) => s.reader == None && id !in s.interactions
    case Decide(id) => s.reader.Some? && id !in s.interactions
    case Remember(serial) => serial in s.flying
    case Write(serial, _) => serial in s.flying && s.flying[serial].remember == None
    case _ => true
  }

  ghost function Next(s: State, step: Step): State
    requires Inv(s) && Enabled(s, step)
  {
    match step
    case Arrive(request, id) => ArriveStep(s, request, id)
    case Decide(id) => DecideStep(s, id)
    case Reply(id, behavior) => assert id in s.interactions ==> PendingAt(s, id); ReplyStep(s, id, behavior)
    case Remember(serial) => RememberStep(s, serial)
    case AnswerQuestion(id, answer) =>
      assert id in s.interactions ==> PendingAt(s, id);
      AnswerQuestionStep(s, id, answer)
    case Cancel => CancelStep(s)
    case Write(serial, ok) => assert InFlight(s, serial); WriteStep(s, serial, ok)
    case SetPolicy(p) => s.(policy := Some(p))
  }

  lemma ReaderFlies(s: State, outcome: Outcome, remember: Option<string>)
    requires Inv(s) && s.reader.Some? && Offered(s.requests[s.reader.value.serial], outcome)
    ensures Inv(Fly(s.(reader := None), s.reader.value.serial, outcome, remember))
  {
    var serial := s.reader.value.serial;
    var t := Fly(s.(reader := None), serial, outcome, remember);
    forall id | id in t.interactions ensures PendingAt(t, id) { assert PendingAt(s, id); }
    forall i | i in t.flying ensures InFlight(t, i) { if i != serial { assert InFlight(s, i); } }
    forall a | a in t.answers ensures IsLogged(t, a) { assert IsLogged(s, a); }
    forall i | 0 <= i < |t.place| ensures Placed(t, i) { assert Placed(s, i); }
  }

  lemma PendingFlies(s: State, id: string, outcome: Outcome, remember: Option<string>)
    requires Inv(s) && id in s.interactions && PendingAt(s, id)
             && Offered(s.requests[s.interactions[id].serial], outcome)
    ensures Inv(Fly(Without(s, id), s.interactions[id].serial, outcome, remember))
  {
    var serial := s.interactions[id].serial;
    var t := Fly(Without(s, id), serial, outcome, remember);
    forall k | k in t.interactions ensures PendingAt(t, k) { assert PendingAt(s, k); }
    forall i | i in t.flying ensures InFlight(t, i) { if i != serial { assert InFlight(s, i); } }
    forall a | a in t.answers ensures IsLogged(t, a) { assert IsLogged(s, a); }
    forall i | 0 <= i < |t.place| ensures Placed(t, i) { assert Placed(s, i); }
  }

  lemma InsertKeeps(before: State, id: string, i: Interaction)
    requires Inv(before) && before.reader.Some? && before.reader.value.serial == i.serial && id !in before.interactions
    requires if i.Native?
             then i.options == before.requests[i.serial].options && i.command == before.requests[i.serial].command
             else i.choices == before.requests[i.serial].choices
    ensures Inv(Insert(before.(reader := None), id, i))
  {
    var s := before.(reader := None);
    var t := Insert(s, id, i);
    if |s.interactions| >= MAX_PENDING_INTERACTIONS {
      ReaderFlies(before, Cancelled, None);
    } else {
      forall k | k in t.interactions ensures PendingAt(t, k) { if k != id { assert PendingAt(before, k); } }
      forall k | k in t.flying ensures InFlight(t, k) { assert InFlight(before, k); }
      forall a | a in t.answers ensures IsLogged(t, a) { assert IsLogged(before, a); }
      forall k | 0 <= k < |t.place| ensures Placed(t, k) { assert Placed(before, k); }
    }
  }

  lemma ArriveKeeps(s: State, request: Request, id: string)
    requires Inv(s) && s.reader == None && id !in s.interactions
    ensures Inv(ArriveStep(s, request, id))
  {
    var n := |s.place|;
    var t := s.(requests := s.requests + [request], place := s.place + [Deciding],
                reader := Some(Decision(n, s.policy)));
    forall k | k in t.interactions ensures PendingAt(t, k) { assert PendingAt(s, k); }
    forall k | k in t.flying ensures InFlight(t, k) { assert InFlight(s, k); }
    forall a | a in t.answers ensures IsLogged(t, a) { assert IsLogged(s, a); }
    forall k | 0 <= k < |t.place| ensures Placed(t, k) { if k < n { assert Placed(s, k); } }
    if IsQuestion(request) {
      InsertKeeps(t, id, UserInput(n, request.choices));
      assert t.(reader := None) == s.(requests := s.requests + [request], place := s.place + [Deciding]);
    }
  }

  lemma DecideKeeps(s: State, id: string)
    requires Inv(s) && s.reader.Some? && id !in s.interactions
    ensures Inv(DecideStep(s, id))
  {
    var d := s.reader.value;
    var r := s.requests[d.serial];
    var repeated := RepeatedOption(d.policy, r.command, s.allowed, r.options);
    if repeated.Some? {
      ReaderFlies(s, Selected(repeated.value), None);
    } else if AutomaticOption(d.policy, r.options).Some? {
      ReaderFlies(s, AutomaticOption(d.policy, r.options).value, None);
    } else {
      InsertKeeps(s, id, Native(d.serial, r.options, r.command));
    }
  }

  lemma ReplyKeeps(s: State, id: string, behavior: string)
    requires Inv(s) && id in s.interactions && PendingAt(s, id)
    ensures Inv(ReplyStep(s, id, behavior))
  {
    match s.interactions[id]
    case Native(serial, options, command) =>
      PendingFlies(s, id, OutcomeOf(Get(options, behavior)), ToRemember(s.interactions[id], behavior));
    case UserInput(serial, _) =>
      PendingFlies(s, id, Cancelled, None);
  }

  lemma DropKeeps(s: State, id: string)
    requires Inv(s) && id in s.interactions && PendingAt(s, id)
    ensures Inv(Drop(s, id))
  {
    var t := Drop(s, id);
    forall k | k in t.interactions ensures PendingAt(t, k) { assert PendingAt(s, k); }
    forall i | i in t.flying ensures InFlight(t, i) { assert InFlight(s, i); }
    forall a | a in t.answers ensures IsLogged(t, a) { assert IsLogged(s, a); }
    forall i | 0 <= i < |t.place| ensures Placed(t, i) { DropPlaces(s, id, i); }
  }

  lemma DropPlaces(s: State, id: string, i: nat)
    requires Inv(s) && id in s.interactions && PendingAt(s, id) && i < |s.place|
    ensures Placed(Drop(s, id), i)
  {
    assert Placed(s, i);
  }

  lemma AnswerQuestionKeeps(s: State, id: string, answer: string)
    requires Inv(s) && id in s.interactions && PendingAt(s, id)
    ensures Inv(AnswerQuestionStep(s, id, answer))
  {
    match s.interactions[id]
    case UserInput(serial, choices) => PendingFlies(s, id, OutcomeOf(Get(choices, answer)), None);
    case Native(_, _, _) => DropKeeps(s, id);
  }

  lemma CancelKeeps(s: State)
    requires Inv(s)
    ensures Inv(CancelStep(s))
  {
    var t := CancelStep(s);
    forall i | i in t.flying ensures InFlight(t, i) {
      if i in s.flying {
        assert InFlight(s, i);
      } else {
        assert i in Serials(s.interactions);
        var id :| id in s.interactions && s.interactions[id].serial == i;
        assert PendingAt(s, id);
      }
    }
    forall a | a in t.answers ensures IsLogged(t, a) { assert IsLogged(s, a); }
    forall i | 0 <= i < |t.place| ensures Placed(t, i) { CancelPlaces(s, i); }
  }

  lemma CancelPlaces(s: State, i: nat)
    requires Inv(s) && i < |s.place|
    ensures Placed(CancelStep(s), i)
  {
    assert Placed(s, i);
    if s.place[i].Pending? { assert i in Serials(s.interactions); }
  }

  lemma WriteKeeps(s: State, serial: nat, ok: bool)
    requires Inv(s) && serial in s.flying && InFlight(s, serial)
    ensures Inv(WriteStep(s, serial, ok))
  {
    var t := WriteStep(s, serial, ok);
    forall k | k in t.interactions ensures PendingAt(t, k) { assert PendingAt(s, k); }
    forall i | i in t.flying ensures InFlight(t, i) { assert InFlight(s, i); }
    forall a | a in t.answers ensures IsLogged(t, a) { if a in s.answers { assert IsLogged(s, a); } }
    forall i | 0 <= i < |t.place| ensures Placed(t, i) {
      assert Placed(s, i);
      if t.place[i] == Answered { MoreLogged(s.answers, t.answers, i); }
    }
    forall j, k | 0 <= j < k < |t.answers| ensures t.answers[j].serial != t.answers[k].serial {
      if k == |s.answers| { assert IsLogged(s, s.answers[j]); }
    }
  }

  lemma MoreLogged(answers: seq<Answer>, more: seq<Answer>, i: nat)
    requires answers <= more && (Logged(answers, i) || (|more| > |answers| && more[|answers|].serial == i))
    ensures Logged(more, i)
  {
  }

  lemma RememberKeeps(s: State, serial: nat)
    requires Inv(s) && serial in s.flying
    ensures Inv(RememberStep(s, serial))
  {
    var t := RememberStep(s, serial);
    forall k | k in t.interactions ensures PendingAt(t, k) { assert PendingAt(s, k); }
    forall i | i in t.flying ensures InFlight(t, i) { assert InFlight(s, i); }
    forall a | a in t.answers ensures IsLogged(t, a) { assert IsLogged(s, a); }
    forall i | 0 <= i < |t.place| ensures Placed(t, i) { assert Placed(s, i); }
  }

  lemma StepKeeps(s: State, step: Step)
    requires Inv(s) && Enabled(s, step)
    ensures Inv(Next(s, step))
  {
    match step
    case Arrive(request, id) => ArriveKeeps(s, request, id);
    case Decide(id) => DecideKeeps(s, id);
    case Reply(id, behavior) => if id in s.interactions { assert PendingAt(s, id); ReplyKeeps(s, id, behavior); }
    case Remember(serial) => RememberKeeps(s, serial);
    case AnswerQuestion(id, answer) =>
      if id in s.interactions {
        assert PendingAt(s, id);
        AnswerQuestionKeeps(s, id, answer);
      }
    case Cancel => CancelKeeps(s);
    case Write(serial, ok) => assert InFlight(s, serial); WriteKeeps(s, serial, ok);
    case SetPolicy(p) =>
      var t := s.(policy := Some(p));
      forall k | k in t.interactions ensures PendingAt(t, k) { assert PendingAt(s, k); }
      forall i | i in t.flying ensures InFlight(t, i) { assert InFlight(s, i); }
      forall a | a in t.answers ensures IsLogged(t, a) { assert IsLogged(s, a); }
      forall i | 0 <= i < |t.place| ensures Placed(t, i) { assert Placed(s, i); }
  }

  // --------------------------------------------------------------------- runs

  /** The state after these steps; `None` when one of them cannot happen. */
  ghost function After(steps: seq<Step>): (s: Option<State>)
    ensures s.Some? ==> Inv(s.value)
  {
    if steps == [] then Some(Start)
    else
      var n := |steps| - 1;
      match After(steps[..n])
      case None => None
      case Some(before) =>
        if Enabled(before, steps[n]) then StepKeeps(before, steps[n]); Some(Next(before, steps[n])) else None
  }

  /** Over every run: at most 64 pending, each request answered at most once, and by what it offered. */
  lemma AtMostOneAnswer(steps: seq<Step>, j: nat, k: nat)
    requires After(steps).Some?
    ensures |After(steps).value.interactions| <= MAX_PENDING_INTERACTIONS
    ensures
      var s := After(steps).value;
      j < |s.answers| && k < |s.answers| && s.answers[j].serial == s.answers[k].serial ==> j == k
    ensures
      var s := After(steps).value;
      j < |s.answers| ==>
        s.answers[j].serial < |s.requests| && Offered(s.requests[s.answers[j].serial], s.answers[j].outcome)
  {
    var s := After(steps).value;
    if j < |s.answers| {
      assert s.answers[j] in s.answers;
      assert IsLogged(s, s.answers[j]);
    }
  }

  /** A step that takes a request away without an answer. */
  predicate Loses(s: State, step: Step) {
    match step
    case AnswerQuestion(id, _) => id in s.interactions && s.interactions[id].Native?
    case Write(serial, ok) => serial < |s.requests| && !(ok && s.requests[serial].validId)
    case _ => false
  }

  ghost predicate Lossless(steps: seq<Step>) {
    steps != [] ==>
      var n := |steps| - 1;
      Lossless(steps[..n]) && (After(steps[..n]).Some? ==> !Loses(After(steps[..n]).value, steps[n]))
  }

  predicate Lost(p: Place) { p == Dropped || p == Failed }

  ghost predicate SomeLost(s: State) {
    exists i :: 0 <= i < |s.place| && Lost(s.place[i])
  }

  /** One step settles a request badly exactly when it loses it, and what is lost stays lost. */
  lemma LosesExactlyWhen(s: State, step: Step)
    requires Inv(s) && Enabled(s, step)
    ensures SomeLost(Next(s, step)) <==> SomeLost(s) || Loses(s, step)
  {
    var t := Next(s, step);
    if SomeLost(s) {
      var i :| 0 <= i < |s.place| && Lost(s.place[i]);
      StepKeepsLost(s, step, i);
      assert Lost(t.place[i]);
    } else if Loses(s, step) {
      match step
      case AnswerQuestion(id, _) =>
        assert PendingAt(s, id);
        assert Lost(t.place[s.interactions[id].serial]);
      case Write(serial, _) =>
        assert InFlight(s, serial);
        assert Lost(t.place[serial]);
    } else if SomeLost(t) {
      var i :| 0 <= i < |t.place| && Lost(t.place[i]);
      NothingNewLost(s, step, i);
    }
  }

  lemma StepKeepsLost(s: State, step: Step, i: nat)
    requires Inv(s) && Enabled(s, step) && i < |s.place| && Lost(s.place[i])
    ensures i < |Next(s, step).place| && Next(s, step).place[i] == s.place[i]
  {
    match step
    case Reply(id, _) => if id in s.interactions { assert PendingAt(s, id); }
    case AnswerQuestion(id, _) => if id in s.interactions { assert PendingAt(s, id); }
    case Write(serial, _) => assert InFlight(s, serial);
    case _ =>
  }

  lemma NothingNewLost(s: State, step: Step, i: nat)
    requires Inv(s) && Enabled(s, step) && !Loses(s, step) && i < |Next(s, step).place| && Lost(Next(s, step).place[i])
    ensures i < |s.place| && Lost(s.place[i])
  {
    match step
    case Reply(id, behavior) =>
      if id in s.interactions {
        assert PendingAt(s, id);
      }
    case AnswerQuestion(id, answer) =>
      if id in s.interactions {
        assert PendingAt(s, id);
      }
    case Write(serial, _) => assert InFlight(s, serial);
    case Arrive(request, id) => ArriveLosesNothing(s, request, id, i);
    case Decide(id) => DecideLosesNothing(s, id, i);
    case _ =>
  }

  lemma ArriveLosesNothing(s: State, request: Request, id: string, i: nat)
    requires i < |ArriveStep(s, request, id).place| && Lost(ArriveStep(s, request, id).place[i])
    ensures i < |s.place| && Lost(s.place[i])
  {
  }

  lemma DecideLosesNothing(s: State, id: string, i: nat)
    requires s.reader.Some? && s.reader.value.serial < |s.place| == |s.requests|
    requires i < |DecideStep(s, id).place| && Lost(DecideStep(s, id).place[i])
    ensures i < |s.place| && Lost(s.place[i])
  {
  }

  lemma {:induction false} LosslessMeansNoneLost(steps: seq<Step>)
    requires After(steps).Some?
    ensures Lossless(steps) <==> !SomeLost(After(steps).value)
  {
    if steps != [] {
      var n := |steps| - 1;
      LosslessMeansNoneLost(steps[..n]);
      LosesExactlyWhen(After(steps[..n]).value, steps[n]);
    }
  }

  /** Nothing pending, nothing being decided or written. */
  predicate Settled(s: State) {
    s.interactions == map[] && s.flying == map[] && s.reader == None
  }

  lemma LostIsNotLogged(s: State, i: nat)
    requires Inv(s) && i < |s.place| && Lost(s.place[i])
    ensures !Logged(s.answers, i)
  {
    forall k | 0 <= k < |s.answers| ensures s.answers[k].serial != i {
      var a := s.answers[k];
      assert a in s.answers;
      assert IsLogged(s, a);
    }
  }

  /**
   At the end of a session every request has its one answer, exactly when no reply to a question
   hit a permission and no write failed.
   */
  lemma EachAnsweredOnce(steps: seq<Step>)
    requires After(steps).Some? && Settled(After(steps).value)
    ensures
      var s := After(steps).value;
      (forall i | 0 <= i < |s.requests| :: Logged(s.answers, i)) <==> Lossless(steps)
  {
    var s := After(steps).value;
    LosslessMeansNoneLost(steps);
    if SomeLost(s) {
      var i :| 0 <= i < |s.place| && Lost(s.place[i]);
      LostIsNotLogged(s, i);
    } else {
      forall i | 0 <= i < |s.requests| ensures Logged(s.answers, i) { assert Placed(s, i); }
    }
  }

  /** Such a run: a permission is asked for, a reply to a question names it, and nobody answers it. */
  lemma WrongReplyDropsPermission(request: Request, id: string, answer: string)
    requires !IsQuestion(request)
    ensures
      var run := After([Arrive(request, id), Decide(id), AnswerQuestion(id, answer)]);
      && run.Some? && run.value.place == [Dropped] && Settled(run.value) && run.value.answers == []
  {
    var arrive, decide, reply := Arrive(request, id), Decide(id), AnswerQuestion(id, answer);
    PermissionSteps(request, id, answer);
    assert After([]) == Some(Start);
    AfterOneMore([], arrive);
    assert [] + [arrive] == [arrive];
    AfterOneMore([arrive], decide);
    assert [arrive] + [decide] == [arrive, decide];
    AfterOneMore([arrive, decide], reply);
    assert [arrive, decide] + [reply] == [arrive, decide, reply];
  }

  /** A permission that was asked for and that nothing decides at once. */
  function Asked(request: Request): State {
    Start.(requests := [request], place := [Deciding], reader := Some(Decision(0, None)))
  }

  function AskedAndPending(request: Request, id: string): State {
    Asked(request).(reader := None, place := [Pending(id)],
                    interactions := map[id := Native(0, request.options, request.command)])
  }

  lemma PermissionSteps(request: Request, id: string, answer: string)
    requires !IsQuestion(request)
    ensures ArriveStep(Start, request, id) == Asked(request)
    ensures DecideStep(Asked(request), id) == AskedAndPending(request, id)
    ensures AnswerQuestionStep(AskedAndPending(request, id), id, answer)
            == AskedAndPending(request, id).(place := [Dropped], interactions := map[])
  {
  }

  lemma AfterOneMore(steps: seq<Step>, step: Step)
    requires After(steps).Some? && Enabled(After(steps).value, step)
    ensures After(steps + [step]) == Some(Next(After(steps).value, step))
  {
    assert (steps + [step])[..|steps|] == steps;
  }


  // ------------------------------------------------------ remembered commands

  /** The step adds this command to the allowed ones. */
  predicate Grants(s: State, step: Step, command: string) {
    step.Remember? && step.serial in s.flying && s.flying[step.serial].remember == Some(command)
      && s.policy == Some(Auto)
  }

  /** The step is the person allowing this command. */
  predicate Allows(s: State, step: Step, serial: nat, command: string) {
    && step.Reply? && (step.behavior == "allow" || step.behavior == "allow_always")
    && step.id in s.interactions && s.interactions[step.id].Native?
    && s.interactions[step.id].serial == serial && s.interactions[step.id].command == Some(command)
    && step.behavior in s.interactions[step.id].options
  }

  ghost predicate GrantedAt(steps: seq<Step>, j: nat, command: string) {
    j < |steps| && After(steps[..j]).Some? && Grants(After(steps[..j]).value, steps[j], command)
  }

  ghost predicate AllowedAt(steps: seq<Step>, j: nat, serial: nat, command: string) {
    j < |steps| && After(steps[..j]).Some? && Allows(After(steps[..j]).value, steps[j], serial, command)
  }

  lemma StepAllowed(s: State, step: Step, command: string)
    requires Inv(s) && Enabled(s, step)
    ensures command in Next(s, step).allowed <==> command in s.allowed || Grants(s, step, command)
  {
  }

  lemma StepRemembers(s: State, step: Step, serial: nat, command: string)
    requires Inv(s) && Enabled(s, step)
    requires serial in Next(s, step).flying && Next(s, step).flying[serial].remember == Some(command)
    ensures (serial in s.flying && s.flying[serial].remember == Some(command)) || Allows(s, step, serial, command)
  {
  }

  lemma {:induction false} AllowedWasGranted(steps: seq<Step>, command: string) returns (j: nat)
    requires After(steps).Some? && command in After(steps).value.allowed
    ensures GrantedAt(steps, j, command)
  {
    var n := |steps| - 1;
    assert steps != [];
    StepAllowed(After(steps[..n]).value, steps[n], command);
    if command in After(steps[..n]).value.allowed {
      j := AllowedWasGranted(steps[..n], command);
      assert steps[..n][..j] == steps[..j];
    } else {
      j := n;
    }
  }

  lemma {:induction false} RememberedWasAllowed(steps: seq<Step>, serial: nat, command: string) returns (j: nat)
    requires After(steps).Some? && serial in After(steps).value.flying
    requires After(steps).value.flying[serial].remember == Some(command)
    ensures AllowedAt(steps, j, serial, command)
  {
    var n := |steps| - 1;
    assert steps != [];
    var before := After(steps[..n]).value;
    StepRemembers(before, steps[n], serial, command);
    if serial in before.flying && before.flying[serial].remember == Some(command) {
      j := RememberedWasAllowed(steps[..n], serial, command);
      assert steps[..n][..j] == steps[..j];
    } else {
      j := n;
    }
  }

  /** The run's next step answers a request by the repeat rule. */
  ghost predicate Repeats(s: State, command: string)
    requires Inv(s)
  {
    s.reader.Some? && s.requests[s.reader.value.serial].command == Some(command)
    && RepeatedOption(s.reader.value.policy, Some(command), s.allowed, s.requests[s.reader.value.serial].options).Some?
  }

  /**
   A command allowed by the repeat rule was allowed before, word for word, by the person (step `i`),
   and remembered while the policy was Auto (step `j`).
   */
  lemma RepeatWasAllowedByPerson(steps: seq<Step>, command: string) returns (i: nat, j: nat, serial: nat)
    requires After(steps).Some? && Repeats(After(steps).value, command)
    ensures i < j < |steps| && AllowedAt(steps, i, serial, command) && GrantedAt(steps, j, command)
    ensures After(steps).value.reader.value.policy == Some(Auto)
  {
    j := AllowedWasGranted(steps, command);
    serial := steps[j].serial;
    i := RememberedWasAllowed(steps[..j], serial, command);
    assert steps[..j][..i] == steps[..i];
  }

  // ---------------------------------------------------------- chosen answers

  /** The step chooses this answer for this request, and says why. */
  ghost predicate Chooses(s: State, step: Step, serial: nat, outcome: Outcome)
    requires Inv(s)
  {
    match step
    case Reply(id, behavior) =>
      && id in s.interactions && s.interactions[id].serial == serial && PendingAt(s, id)
      && var options := s.requests[serial].options;
         if s.interactions[id].Native? && behavior in options
           then outcome == Selected(options[behavior]) else outcome == Cancelled
    case AnswerQuestion(id, answer) =>
      && id in s.interactions && s.interactions[id].serial == serial
           && s.interactions[id].UserInput? && PendingAt(s, id)
      && var choices := s.requests[serial].choices;
         if answer in choices then outcome == Selected(choices[answer]) else outcome == Cancelled
    case Cancel => serial < |s.place| && s.place[serial].Pending? && outcome == Cancelled
    case Arrive(_, _) => serial == |s.place| && |s.interactions| == MAX_PENDING_INTERACTIONS && outcome == Cancelled
    case Decide(_) =>
      && s.reader.Some? && s.reader.value.serial == serial
      && var r, policy := s.requests[serial], s.reader.value.policy;
         if policy == Some(FullAccess) then outcome == FirstAllowed(r.options)
         else if policy == Some(Auto) && r.command.Some? && r.command.value in s.allowed && "allow" in r.options
         then outcome == Selected(r.options["allow"])
         else |s.interactions| == MAX_PENDING_INTERACTIONS && outcome == Cancelled
    case _ => false
  }

  /** Once before always, and cancelled without either. */
  function FirstAllowed(options: map<string, string>): Outcome {
    OutcomeOf(if "allow" in options then Get(options, "allow") else Get(options, "allow_always"))
  }

  ghost predicate ChosenAt(steps: seq<Step>, j: nat, serial: nat, outcome: Outcome) {
    j < |steps| && After(steps[..j]).Some? && Chooses(After(steps[..j]).value, steps[j], serial, outcome)
  }

  /** What flies after a step flew before it, or the step chose it. */
  lemma StepChooses(s: State, step: Step, serial: nat)
    requires Inv(s) && Enabled(s, step) && serial in Next(s, step).flying
    ensures
      var outcome := Next(s, step).flying[serial].outcome;
      (serial in s.flying && s.flying[serial].outcome == outcome) || Chooses(s, step, serial, outcome)
  {
    match step
    case Reply(id, _) => if id in s.interactions { assert PendingAt(s, id); }
    case AnswerQuestion(id, _) => if id in s.interactions { assert PendingAt(s, id); }
    case Cancel =>
      if serial !in s.flying {
        var id :| id in s.interactions && s.interactions[id].serial == serial;
        assert PendingAt(s, id);
      }
    case _ =>
  }

  lemma {:induction false} FlightWasChosen(steps: seq<Step>, serial: nat) returns (j: nat)
    requires After(steps).Some? && serial in After(steps).value.flying
    ensures ChosenAt(steps, j, serial, After(steps).value.flying[serial].outcome)
  {
    var n := |steps| - 1;
    assert steps != [];
    var before := After(steps[..n]).value;
    StepChooses(before, steps[n], serial);
    var outcome := After(steps).value.flying[serial].outcome;
    if serial in before.flying && before.flying[serial].outcome == outcome {
      j := FlightWasChosen(steps[..n], serial);
      assert steps[..n][..j] == steps[..j];
    } else {
      j := n;
    }
  }

  /** Every answer the agent got was chosen for that request by an earlier step of the run. */
  lemma {:induction false} AnswerWasChosen(steps: seq<Step>, a: Answer) returns (j: nat)
    requires After(steps).Some? && a in After(steps).value.answers
    ensures ChosenAt(steps, j, a.serial, a.outcome)
  {
    var n := |steps| - 1;
    assert steps != [];
    var before := After(steps[..n]).value;
    StepAnswers(before, steps[n]);
    if a in before.answers {
      j := AnswerWasChosen(steps[..n], a);
    } else {
      j := FlightWasChosen(steps[..n], a.serial);
    }
    assert steps[..n][..j] == steps[..j];
  }

  /** Only a write that lands adds an answer, the one that flew. */
  lemma StepAnswers(s: State, step: Step)
    requires Inv(s) && Enabled(s, step)
    ensures
      var t := Next(s, step);
      || t.answers == s.answers
      || (step.Write? && step.serial in s.flying
        && t.answers == s.answers + [Answer(step.serial, s.flying[step.serial].outcome)])
  {
    match step
    case Reply(id, _) => if id in s.interactions { assert PendingAt(s, id); }
    case AnswerQuestion(id, _) => if id in s.interactions { assert PendingAt(s, id); }
    case _ =>
  }
}
