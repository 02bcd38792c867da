/**
 Publishing feedback as a GitHub issue.  This file has the values, the four statements that touch
 the receipts table, the page search, and `deliver` as one caller runs it.
 */
module FeedbackDelivery {
  import opened Basics

  const PAGE_SIZE: nat := 30
  const MAX_PAGES: nat := 10

  type RequestId = string

  /** What the person sends.  Its JSON text is the payload, and is as good as the value itself. */
  datatype Input = Input(requestId: RequestId, login: string, text: string)

  datatype Issue = Issue(
    number: nat, title: string, category: string, state: string,
    stateReason: Option<string>, createdAt: string)

  /** An entry GitHub sent, as far as it could be read. */
  datatype Entry = Entry(
    pullRequest: bool, number: Option<nat>, title: Option<string>, body: Option<string>,
    state: Option<string>, stateReason: Option<string>, createdAt: Option<string>)

  datatype Error = Uncertain | RequestChanged | GitHub(status: nat) | Database | InvalidIssue

  datatype Receipt = Receipt(login: string, payload: Input, issue: Option<Issue>)

  type Receipts = map<RequestId, Receipt>

  // ------------------------------------------------------------------ entries

  predicate Contains(text: string, part: string) {
    part <= text || (text != [] && Contains(text[1..], part))
  }

  predicate OccursAt(text: string, part: string, i: nat) {
    i <= |text| && part <= text[i..]
  }

  ghost predicate Occurs(text: string, part: string) {
    exists i: nat :: OccursAt(text, part, i)
  }

  lemma OccursLater(text: string, part: string)
    requires text != []
    ensures Occurs(text[1..], part) ==> Occurs(text, part)
    ensures Occurs(text, part) ==> part <= text || Occurs(text[1..], part)
  {
    if i: nat :| OccursAt(text[1..], part, i) {
      assert text[1..][i..] == text[i + 1..];
      assert OccursAt(text, part, i + 1);
    }
    if i: nat :| OccursAt(text, part, i) {
      if i > 0 {
        assert text[1..][i - 1..] == text[i..];
        assert OccursAt(text[1..], part, i - 1);
      } else {
        assert text[0..] == text;
      }
    }
  }

  lemma {:induction false} ContainsMeaning(text: string, part: string)
    ensures Contains(text, part) <==> Occurs(text, part)
  {
    if part <= text {
      assert text[0..] == text;
      assert OccursAt(text, part, 0);
    } else if text != [] {
      ContainsMeaning(text[1..], part);
      OccursLater(text, part);
    }
  }

  function Marker(id: RequestId): string {
    "<!-- dcc-feedback:" + id + " -->"
  }

  /** The search's test: an issue whose body carries the request's marker. */
  predicate Marked(e: Entry, id: RequestId) {
    !e.pullRequest && e.body.Some? && Contains(e.body.value, Marker(id))
  }

  /** `issue`. */
  function ReadIssue(e: Entry): Result<Issue, Error> {
    if e.number.None? || e.title.None? || e.state.None? || e.createdAt.None? then Failure(InvalidIssue)
    else
      var body := if e.body.Some? then e.body.value else "";
      var category :=
        if Contains(body, "<!-- dcc-feedback-category:bug -->") || "[Bug]" <= e.title.value then "bug"
        else if Contains(body, "<!-- dcc-feedback-category:improvement -->") || "[Feature]" <= e.title.value
          then "improvement"
        else "other";
      Success(Issue(e.number.value, e.title.value, category, e.state.value, e.stateReason, e.createdAt.value))
  }

  /** An entry is the request's own: an issue, no pull request, with the request's marker anywhere in its text. */
  lemma MarkedMeaning(e: Entry, id: RequestId)
    ensures Marked(e, id) <==>
            !e.pullRequest && e.body.Some? && Occurs(e.body.value, "<!-- dcc-feedback:" + id + " -->")
  {
    if e.body.Some? { ContainsMeaning(e.body.value, Marker(id)); }
  }

  /** What an issue must have. */
  predicate Readable(e: Entry) {
    e.number.Some? && e.title.Some? && e.state.Some? && e.createdAt.Some?
  }

  ghost predicate SaysBug(e: Entry)
    requires e.title.Some?
  {
    || "[Bug]" <= e.title.value
    || (e.body.Some? && Occurs(e.body.value, "<!-- dcc-feedback-category:bug -->"))
  }

  ghost predicate SaysImprovement(e: Entry)
    requires e.title.Some?
  {
    || "[Feature]" <= e.title.value
    || (e.body.Some? && Occurs(e.body.value, "<!-- dcc-feedback-category:improvement -->"))
  }

  /** The issue is this entry, field by field. */
  ghost predicate IsEntry(issue: Issue, e: Entry) {
    && Readable(e)
    && issue.number == e.number.value && issue.title == e.title.value && issue.state == e.state.value
    && issue.stateReason == e.stateReason && issue.createdAt == e.createdAt.value
    && issue.category == if SaysBug(e) then "bug" else if SaysImprovement(e) then "improvement" else "other"
  }

  lemma ReadIssueMeaning(e: Entry)
    ensures ReadIssue(e).Success? <==> Readable(e)
    ensures ReadIssue(e).Success? ==> IsEntry(ReadIssue(e).value, e)
    ensures ReadIssue(e).Failure? ==> ReadIssue(e).error == InvalidIssue
  {
    var body := if e.body.Some? then e.body.value else "";
    ContainsMeaning(body, "<!-- dcc-feedback-category:bug -->");
    ContainsMeaning(body, "<!-- dcc-feedback-category:improvement -->");
    if e.body.None? { EmptyContains("<!-- dcc-feedback-category:bug -->"); }
    if e.body.None? { EmptyContains("<!-- dcc-feedback-category:improvement -->"); }
  }

  lemma EmptyContains(part: string)
    requires part != []
    ensures !Occurs("", part)
  {
  }

  /** What came back from the POST: no answer, or a status with a body that may be unreadable. */
  datatype Http = NoAnswer | Answer(status: nat, body: Option<Entry>)

  /** A 4xx other than 408: GitHub says it created nothing. */
  predicate DefiniteRejection(h: Http) {
    h.Answer? && 400 <= h.status <= 499 && h.status != 408
  }

  /** The POST closure of `create`. */
  function PostResult(h: Http): Result<Entry, Error> {
    match h
    case NoAnswer => Failure(Uncertain)
    case Answer(status, body) =>
      if !(200 <= status <= 299) then
        if DefiniteRejection(h) then Failure(GitHub(status)) else Failure(Uncertain)
      else if body.None? then Failure(Uncertain) else Success(body.value)
  }

  // -------------------------------------------------------- table statements

  /** `INSERT OR IGNORE`. */
  function Reserve(rows: Receipts, input: Input): Receipts {
    if input.requestId in rows then rows else rows[input.requestId := Receipt(input.login, input, None)]
  }

  /** `UPDATE … SET issue_json`; nothing when the row is gone. */
  function Remember(rows: Receipts, id: RequestId, issue: Issue): Receipts {
    if id in rows then rows[id := rows[id].(issue := Some(issue))] else rows
  }

  /** `DELETE`. */
  function Forget(rows: Receipts, id: RequestId): Receipts {
    rows - {id}
  }

  // ------------------------------------------------------------- page search

  datatype Search = Found(entry: Entry) | NotFound | PageFailed

  /** The index of the first marked entry of a page. */
  function FirstMarked(page: seq<Entry>, id: RequestId): (i: nat)
    ensures i <= |page|
    ensures i < |page| ==> Marked(page[i], id)
    ensures forall j | 0 <= j < i :: !Marked(page[j], id)
  {
    if page == [] || Marked(page[0], id) then 0 else 1 + FirstMarked(page[1..], id)
  }

  /** The search from page `k` on: the first marked entry, unless a page cannot be fetched first. */
  function SearchFrom(fetch: nat -> Option<seq<Entry>>, id: RequestId, k: nat): Search
    decreases MAX_PAGES + 1 - k
  {
    if k > MAX_PAGES then NotFound
    else if fetch(k).None? then PageFailed
    else
      var page := fetch(k).value;
      if FirstMarked(page, id) < |page| then Found(page[FirstMarked(page, id)])
      else if |page| < PAGE_SIZE then NotFound
      else SearchFrom(fetch, id, k + 1)
  }

  /** Page `k` of a listing, newest first. */
  function PageOf(listing: seq<Entry>, k: nat): seq<Entry>
    requires k > 0
  {
    var from := (k - 1) * PAGE_SIZE;
    if from >= |listing| then []
    else if from + PAGE_SIZE >= |listing| then listing[from..]
    else listing[from..from + PAGE_SIZE]
  }

  ghost predicate Lists(fetch: nat -> Option<seq<Entry>>, listing: seq<Entry>) {
    forall k: nat :: 1 <= k <= MAX_PAGES ==> Serves(fetch, listing, k)
  }

  predicate Serves(fetch: nat -> Option<seq<Entry>>, listing: seq<Entry>, k: nat)
    requires k > 0
  {
    fetch(k) == Some(PageOf(listing, k))
  }

  /** The newest entries the search can see. */
  function Newest(listing: seq<Entry>): seq<Entry> {
    if |listing| <= MAX_PAGES * PAGE_SIZE then listing else listing[..MAX_PAGES * PAGE_SIZE]
  }

  function FirstOf(entries: seq<Entry>, id: RequestId): Search {
    if FirstMarked(entries, id) < |entries| then Found(entries[FirstMarked(entries, id)]) else NotFound
  }

  lemma {:induction false} FirstOfConcat(a: seq<Entry>, b: seq<Entry>, id: RequestId)
    ensures FirstOf(a + b, id) == if FirstOf(a, id).Found? then FirstOf(a, id) else FirstOf(b, id)
  {
    if a == [] {
      assert a + b == b;
    } else {
      assert (a + b)[1..] == a[1..] + b;
      FirstOfConcat(a[1..], b, id);
    }
  }

  /** The entries the search sees from page `k` on. */
  function SeenFrom(listing: seq<Entry>, k: nat): seq<Entry>
    requires k > 0
  {
    var seen, from := Newest(listing), (k - 1) * PAGE_SIZE;
    if from >= |seen| then [] else seen[from..]
  }

  lemma SeenByPages(listing: seq<Entry>, k: nat)
    requires 1 <= k <= MAX_PAGES
    ensures |PageOf(listing, k)| <= PAGE_SIZE
    ensures |PageOf(listing, k)| < PAGE_SIZE ==> SeenFrom(listing, k) == PageOf(listing, k)
    ensures |PageOf(listing, k)| == PAGE_SIZE ==> SeenFrom(listing, k) == PageOf(listing, k) + SeenFrom(listing, k + 1)
  {
  }

  /** From page `k` on, the search answers what one look at the rest of the listing would. */
  ghost predicate SeesRest(fetch: nat -> Option<seq<Entry>>, listing: seq<Entry>, id: RequestId, k: nat)
    requires k > 0
  {
    SearchFrom(fetch, id, k) == FirstOf(SeenFrom(listing, k), id)
  }

  /** From the last page back to the first. */
  lemma SearchFromFinds(fetch: nat -> Option<seq<Entry>>, listing: seq<Entry>, id: RequestId)
    requires Lists(fetch, listing)
    ensures SeesRest(fetch, listing, id, 1)
  {
    SearchEnds(fetch, listing, id);
    var k: nat := MAX_PAGES + 1;
    while k > 1
      invariant 1 <= k <= MAX_PAGES + 1 && SeesRest(fetch, listing, id, k)
    {
      k := k - 1;
      PageIsServed(fetch, listing, k);
      SearchPage(fetch, listing, id, k);
    }
  }

  lemma PageIsServed(fetch: nat -> Option<seq<Entry>>, listing: seq<Entry>, k: nat)
    requires Lists(fetch, listing) && 1 <= k <= MAX_PAGES
    ensures Serves(fetch, listing, k)
  {
  }

  lemma SearchEnds(fetch: nat -> Option<seq<Entry>>, listing: seq<Entry>, id: RequestId)
    ensures SeesRest(fetch, listing, id, MAX_PAGES + 1)
  {
    assert SeenFrom(listing, MAX_PAGES + 1) == [];
  }

  lemma SearchPage(fetch: nat -> Option<seq<Entry>>, listing: seq<Entry>, id: RequestId, k: nat)
    requires 1 <= k <= MAX_PAGES && Serves(fetch, listing, k)
    requires SeesRest(fetch, listing, id, k + 1)
    ensures SeesRest(fetch, listing, id, k)
  {
    var page := PageOf(listing, k);
    SeenByPages(listing, k);
    if |page| == PAGE_SIZE { FirstOfConcat(page, SeenFrom(listing, k + 1), id); }
  }

  /**
   On a stable listing the search finds a marked entry exactly when one is among the newest
   300, and then it is the newest of them.
   */
  lemma SearchFinds(fetch: nat -> Option<seq<Entry>>, listing: seq<Entry>, id: RequestId)
    requires Lists(fetch, listing)
    ensures
      var seen := Newest(listing);
      var found := SearchFrom(fetch, id, 1);
      && (found.Found? <==> exists i :: 0 <= i < |seen| && Marked(seen[i], id))
      && (found.Found? ==> exists i :: 0 <= i < |seen| && found.entry == seen[i] && Marked(seen[i], id)
                                      && forall j | 0 <= j < i :: !Marked(seen[j], id))
  {
    SearchFromFinds(fetch, listing, id);
    assert SeenFrom(listing, 1) == Newest(listing);
  }

  // ----------------------------------------------------------------- deliver

  /** What `deliver` answers for a request that already has a row. */
  function Resume(row: Receipt, input: Input, fetch: nat -> Option<seq<Entry>>): Result<Issue, Error> {
    if row.payload != input then Failure(RequestChanged)
    else if row.issue.Some? then Success(row.issue.value)
    else match SearchFrom(fetch, input.requestId, 1)
      case Found(entry) => ReadIssue(entry)
      case NotFound => Failure(Uncertain)
      case PageFailed => Failure(Uncertain)
  }

  /** What `deliver` answers for a fresh request. */
  function Publish(http: Http): Result<Issue, Error> {
    match PostResult(http)
    case Failure(error) => Failure(error)
    case Success(entry) => if ReadIssue(entry).Success? then ReadIssue(entry) else Failure(Uncertain)
  }

  /** A page after which the search goes on: full, and without a marked entry. */
  predicate Passed(fetch: nat -> Option<seq<Entry>>, id: RequestId, k: nat) {
    fetch(k).Some? && |fetch(k).value| >= 30 && forall e | e in fetch(k).value :: !Marked(e, id)
  }

  /** The answer to a fresh request, by what came back from its POST. */
  ghost predicate FreshIs(http: Http, r: Result<Issue, Error>) {
    match http
    case NoAnswer => r == Failure(Uncertain)
    case Answer(status, body) =>
      if 200 <= status <= 299 && body.Some? && Readable(body.value) then r.Success? && IsEntry(r.value, body.value)
      else if 400 <= status <= 499 && status != 408 then r == Failure(GitHub(status))
      else r == Failure(Uncertain)
  }

  /** The answer to a known one: its stored issue, or what a search finds, or that another text has its id. */
  ghost predicate KnownIs(row: Receipt, input: Input, r: Result<Issue, Error>) {
    if row.payload != input then r == Failure(RequestChanged)
    else if row.issue.Some? then r == Success(row.issue.value)
    else r.Failure? ==> r.error == Uncertain || r.error == InvalidIssue
  }

  /**
   A retry after a lost answer, on a stable listing: the newest marked entry of the newest 300 is the
   answer, an unreadable one is an error, and without one nothing is certain.
   */
  lemma RetryMeaning(row: Receipt, input: Input, fetch: nat -> Option<seq<Entry>>, listing: seq<Entry>)
    requires Lists(fetch, listing) && row.payload == input && row.issue == None
    ensures
      var r := Resume(row, input, fetch);
      var n := if |listing| < 300 then |listing| else 300;
      && ((forall i | 0 <= i < n :: !Marked(listing[i], input.requestId)) ==> r == Failure(Uncertain))
      && (forall i | 0 <= i < n && Marked(listing[i], input.requestId)
                     && (forall j | 0 <= j < i :: !Marked(listing[j], input.requestId)) ::
            if Readable(listing[i]) then r.Success? && IsEntry(r.value, listing[i]) else r == Failure(InvalidIssue))
  {
    FirstSeen(fetch, listing, input.requestId);
    var found := SearchFrom(fetch, input.requestId, 1);
    if found.Found? { ReadIssueMeaning(found.entry); }
  }

  lemma FirstSeen(fetch: nat -> Option<seq<Entry>>, listing: seq<Entry>, id: RequestId)
    requires Lists(fetch, listing)
    ensures
      var found := SearchFrom(fetch, id, 1);
      var n := if |listing| < 300 then |listing| else 300;
      && ((forall i | 0 <= i < n :: !Marked(listing[i], id)) ==> found == NotFound)
      && (forall i | 0 <= i < n && Marked(listing[i], id) && (forall j | 0 <= j < i :: !Marked(listing[j], id)) ::
            found == Found(listing[i]))
  {
    SearchFromFinds(fetch, listing, id);
    assert SeenFrom(listing, 1) == Newest(listing);
  }

  class Table {
    var rows: Receipts

    constructor ()
      ensures rows == map[]
    {
      rows := map[];
    }

    method InsertOrIgnore(input: Input) returns (inserted: nat)
      modifies this
      ensures rows == Reserve(old(rows), input)
      ensures inserted == if input.requestId in old(rows) then 0 else 1
    {
      if input.requestId in rows { return 0; }
      rows := rows[input.requestId := Receipt(input.login, input, None)];
      inserted := 1;
    }

    /** The page loop of `deliver`. */
    method FindMarked(id: RequestId, fetch: nat -> Option<seq<Entry>>) returns (found: Search, fetched: nat)
      ensures found == SearchFrom(fetch, id, 1) && fetched <= 10
      ensures forall k | 1 <= k < fetched :: Passed(fetch, id, k)
    {
      fetched := 0;
      for k := 1 to MAX_PAGES + 1
        invariant fetched == k - 1 && forall j | 1 <= j < k :: Passed(fetch, id, j)
        invariant SearchFrom(fetch, id, 1) == SearchFrom(fetch, id, k)
      {
        var page := fetch(k);
        fetched := fetched + 1;
        if page.None? { return PageFailed, fetched; }
        var i := FirstMarked(page.value, id);
        if i < |page.value| { return Found(page.value[i]), fetched; }
        if |page.value| < PAGE_SIZE { return NotFound, fetched; }
      }
      found := NotFound;
    }

    /**
     `deliver`, run by one caller with nobody else at the table.  `posts` and `fetched` count what
     it sent over the network.
     */
    method Deliver(input: Input, fetch: nat -> Option<seq<Entry>>, http: Http)
      returns (r: Result<Issue, Error>, posts: nat, fetched: nat)
      modifies this
      ensures input.requestId !in old(rows) ==> posts == 1 && fetched == 0 && r == Publish(http)
      ensures input.requestId in old(rows) ==> posts == 0 && r == Resume(old(rows)[input.requestId], input, fetch)
      ensures input.requestId in old(rows)
              && (old(rows)[input.requestId].payload != input || old(rows)[input.requestId].issue.Some?)
              ==> fetched == 0 && rows == old(rows)
      ensures r.Failure? && input.requestId in old(rows) ==> rows == old(rows)
      ensures r.Success? ==> rows == Remember(Reserve(old(rows), input), input.requestId, r.value)
      ensures r.Failure? && input.requestId !in old(rows) ==>
                rows == if r.error.GitHub? then old(rows) else Reserve(old(rows), input)
      ensures fetched <= 10 && forall k | 1 <= k < fetched :: Passed(fetch, input.requestId, k)
      ensures input.requestId !in old(rows) ==> FreshIs(http, r)
      ensures input.requestId in old(rows) ==> KnownIs(old(rows)[input.requestId], input, r)
    {
      posts, fetched := 0, 0;
      if http.Answer? && http.body.Some? { ReadIssueMeaning(http.body.value); }
      var inserted := InsertOrIgnore(input);
      if inserted == 0 {
        var row := rows[input.requestId];
        if row.payload != input { return Failure(RequestChanged), posts, fetched; }
        if row.issue.Some? {
          assert rows == Remember(rows, input.requestId, row.issue.value);
          return Success(row.issue.value), posts, fetched;
        }
        var found;
        found, fetched := FindMarked(input.requestId, fetch);
        if !found.Found? { return Failure(Uncertain), posts, fetched; }
        ReadIssueMeaning(found.entry);
        r := ReadIssue(found.entry);
        if r.Success? { rows := Remember(rows, input.requestId, r.value); }
        return;
      }
      posts := 1;
      var answer := PostResult(http);
      if answer.Failure? {
        if answer.error.GitHub? {
          rows := Forget(rows, input.requestId);
          assert rows == old(rows);
        }
        return Failure(answer.error), posts, fetched;
      }
      r := ReadIssue(answer.value);
      if r.Failure? { return Failure(Uncertain), posts, fetched; }
      rows := Remember(rows, input.requestId, r.value);
    }
  }
}
