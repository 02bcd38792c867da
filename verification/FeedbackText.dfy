/**
 The text of a submission against the search that looks for it.  `rest` stands for what the person
 wrote: the description, the steps and the diagnostics.
 */
module FeedbackText {
  import opened Basics
  import opened FeedbackDelivery

  /** The start of the body that `format_submission` writes. */
  function Submission(id: RequestId, category: string, rest: string): string {
    Marker(id) + ("\n" + (CategoryMarker(category) + ("\n\n" + rest)))
  }

  function CategoryMarker(category: string): string {
    "<!-- dcc-feedback-category:" + category + " -->"
  }

  function TitlePrefix(category: string): string {
    if category == "bug" then "[Bug]: " else if category == "improvement" then "[Feature]: " else "[Feedback]: "
  }

  predicate IsCategory(category: string) {
    category == "bug" || category == "improvement" || category == "other"
  }

  /** As every UUID. */
  predicate PlainId(id: RequestId) {
    '<' !in id && ' ' !in id
  }

  /** Nothing is found where its first character does not occur. */
  lemma {:induction false} SkipTo(a: string, b: string, part: string)
    requires part != [] && part[0] !in a
    ensures Contains(a + b, part) <==> Contains(b, part)
  {
    if a == [] {
      assert a + b == b;
    } else {
      assert (a + b)[0] == a[0] && (a + b)[1..] == a[1..] + b;
      SkipTo(a[1..], b, part);
    }
  }

  /** Behind a first character that fits, the search goes on after it. */
  lemma SkipOpening(inner: string, b: string, part: string)
    requires part != [] && part[0] == '<' && '<' !in inner && !(part <= ['<'] + inner + b)
    ensures Contains(['<'] + inner + b, part) <==> Contains(b, part)
  {
    var text := ['<'] + inner + b;
    assert text[1..] == inner + b;
    SkipTo(inner, b, part);
  }

  /** One marker stands at the start of a text that begins with another only if the ids are the same. */
  lemma MarkerAtStart(id: RequestId, other: RequestId, b: string)
    requires PlainId(id) && PlainId(other)
    ensures Marker(other) <= Marker(id) + b <==> other == id
  {
    var m, text := Marker(other), Marker(id) + b;
    assert |"<!-- dcc-feedback:"| == 18;
    forall i | 0 <= i < |other| ensures m[18 + i] == other[i] {}
    forall i | 0 <= i < |id| ensures text[18 + i] == id[i] {}
    assert m[18 + |other|] == ' ' && text[18 + |id|] == ' ';
    if m <= text {
      assert forall i | 0 <= i < |m| :: m[i] == text[i];
      assert |id| == |other|;
      assert forall i | 0 <= i < |id| :: id[i] == other[i];
      assert id == other;
    }
  }

  function Inner(marker: string): string {
    if marker == [] then [] else marker[1..]
  }

  lemma Opens(name: string, value: string)
    requires name != [] && name[0] == '<' && '<' !in name[1..] && '<' !in value
    ensures name + value + " -->" == ['<'] + Inner(name + value + " -->")
    ensures '<' !in Inner(name + value + " -->")
  {
    var all := name + value + " -->";
    forall i | 0 < i < |all| ensures all[i] != '<' {
      if i < |name| {
        assert all[i] == name[1..][i - 1];
      } else if i < |name| + |value| {
        assert all[i] == value[i - |name|];
      } else {
        assert all[i] == " -->"[i - |name| - |value|];
      }
    }
  }

  lemma MarkerOpens(id: RequestId)
    requires '<' !in id
    ensures Marker(id) == ['<'] + Inner(Marker(id)) && Marker(id)[17] == ':' && '<' !in Inner(Marker(id))
  {
    Opens("<!-- dcc-feedback:", id);
  }

  lemma CategoryMarkerOpens(category: string)
    requires '<' !in category
    ensures CategoryMarker(category) == ['<'] + Inner(CategoryMarker(category)) && CategoryMarker(category)[17] == '-'
    ensures '<' !in Inner(CategoryMarker(category))
  {
    CategoryNameOpens();
    Opens("<!-- dcc-feedback-category:", category);
  }

  lemma CategoryNameOpens()
    ensures
      var name := "<!-- dcc-feedback-category:";
      name[0] == '<' && '<' !in name[1..] && name[17] == '-'
  {
    assert "<!-- dcc-feedback-category:"[1..] == "!-- dcc-feedback-category:";
  }

  /** What is found in a submission is one of its two markers or in what the person wrote. */
  lemma FoundInSubmission(id: RequestId, category: string, rest: string, part: string)
    requires PlainId(id) && IsCategory(category) && part != [] && part[0] == '<'
    ensures
      var behind := "\n" + (CategoryMarker(category) + ("\n\n" + rest));
      Contains(Submission(id, category, rest), part)
      <==> part <= Marker(id) + behind || part <= CategoryMarker(category) + ("\n\n" + rest) || Contains(rest, part)
  {
    MarkerOpens(id);
    CategoryMarkerOpens(category);
    var last := "\n\n" + rest;
    var middle := CategoryMarker(category) + last;
    var behind := "\n" + middle;
    SkipTo("\n\n", rest, part);
    SkipTo("\n", middle, part);
    if !(part <= middle) { SkipOpening(Inner(CategoryMarker(category)), last, part); }
    if !(part <= Marker(id) + behind) { SkipOpening(Inner(Marker(id)), behind, part); }
  }

  /**
   The issue that a POST made is recognised by the search of its own request, and by that of another
   exactly when the person wrote that request's marker into the text.
   */
  lemma SubmissionIsRecognised(id: RequestId, category: string, rest: string, e: Entry, other: RequestId)
    requires PlainId(id) && PlainId(other) && IsCategory(category)
    requires !e.pullRequest && e.body == Some(Submission(id, category, rest))
    ensures Marked(e, id)
    ensures Marked(e, other) <==> other == id || Occurs(rest, Marker(other))
  {
    var behind := "\n" + (CategoryMarker(category) + ("\n\n" + rest));
    MarkerOpens(other);
    CategoryMarkerOpens(category);
    FoundInSubmission(id, category, rest, Marker(other));
    MarkerAtStart(id, other, behind);
    MarkerAtStart(id, id, behind);
    ContainsMeaning(rest, Marker(other));
    assert !(Marker(other) <= CategoryMarker(category) + ("\n\n" + rest));
  }

  /** Its category reads back, unless the person wrote the marker of one that is looked for before it. */
  lemma CategoryReadsBack(id: RequestId, category: string, title: string, rest: string, e: Entry)
    requires PlainId(id) && IsCategory(category) && Readable(e)
    requires e.title == Some(TitlePrefix(category) + title) && e.body == Some(Submission(id, category, rest))
    ensures ReadIssue(e).Success?
    ensures ReadIssue(e).value.category ==
            if category == "bug" || Occurs(rest, CategoryMarker("bug")) then "bug"
            else if category == "improvement" || Occurs(rest, CategoryMarker("improvement")) then "improvement"
            else "other"
  {
    ReadIssueMeaning(e);
    SaysBugWhen(id, category, title, rest, e);
    SaysImprovementWhen(id, category, title, rest, e);
  }

  lemma SaysBugWhen(id: RequestId, category: string, title: string, rest: string, e: Entry)
    requires PlainId(id) && IsCategory(category)
    requires e.title == Some(TitlePrefix(category) + title) && e.body == Some(Submission(id, category, rest))
    ensures SaysBug(e) <==> category == "bug" || Occurs(rest, CategoryMarker("bug"))
  {
    SaysCategory(id, category, rest, "bug");
    TitleSays(category, title);
    assert CategoryMarker("bug") == "<!-- dcc-feedback-category:bug -->";
    ContainsMeaning(e.body.value, CategoryMarker("bug"));
  }

  lemma SaysImprovementWhen(id: RequestId, category: string, title: string, rest: string, e: Entry)
    requires PlainId(id) && IsCategory(category)
    requires e.title == Some(TitlePrefix(category) + title) && e.body == Some(Submission(id, category, rest))
    ensures SaysImprovement(e) <==> category == "improvement" || Occurs(rest, CategoryMarker("improvement"))
  {
    SaysCategory(id, category, rest, "improvement");
    TitleSays(category, title);
    assert CategoryMarker("improvement") == "<!-- dcc-feedback-category:improvement -->";
    ContainsMeaning(e.body.value, CategoryMarker("improvement"));
  }

  lemma SaysCategory(id: RequestId, category: string, rest: string, looked: string)
    requires PlainId(id) && IsCategory(category) && (looked == "bug" || looked == "improvement")
    ensures Contains(Submission(id, category, rest), CategoryMarker(looked))
            <==> category == looked || Occurs(rest, CategoryMarker(looked))
  {
    var part := CategoryMarker(looked);
    var last := "\n\n" + rest;
    MarkerOpens(id);
    CategoryMarkerOpens(looked);
    FoundInSubmission(id, category, rest, part);
    ContainsMeaning(rest, part);
    var behind := "\n" + (CategoryMarker(category) + last);
    assert (Marker(id) + behind)[17] == Marker(id)[17];
    CategoryAtStart(category, looked, last);
  }

  lemma CategoryAtStart(category: string, looked: string, b: string)
    requires IsCategory(category) && (looked == "bug" || looked == "improvement")
    ensures CategoryMarker(looked) <= CategoryMarker(category) + b <==> category == looked
  {
    assert |"<!-- dcc-feedback-category:"| == 27;
    assert CategoryMarker(looked)[27] == looked[0] && (CategoryMarker(category) + b)[27] == category[0];
  }

  lemma TitleSays(category: string, title: string)
    requires IsCategory(category)
    ensures "[Bug]" <= TitlePrefix(category) + title <==> category == "bug"
    ensures "[Feature]" <= TitlePrefix(category) + title <==> category == "improvement"
  {
    var text := TitlePrefix(category) + title;
    assert text[1] == TitlePrefix(category)[1] && text[3] == TitlePrefix(category)[3];
    if category == "bug" {
      assert text[..5] == TitlePrefix("bug")[..5] == "[Bug]";
    } else if category == "improvement" {
      assert text[..9] == TitlePrefix("improvement")[..9] == "[Feature]";
    } else {
      assert text[5] == TitlePrefix("other")[5];
    }
  }
}
