/** The request-level logic of the HTTP API (backend/main.py): the user id
    taken from the `X-User-ID` header, the display title, the seed cards for
    the current milestone, and how a graded diagnostic or exam changes the
    learner's profile. Loading and saving the profile, grading by the
    language model and the clock are outside: the handlers here receive the
    loaded plan and profile, the graded result and the time, and return the
    response together with the profile as it is saved. */
module Api {
  import opened Models
  import Optimizer

  datatype HttpError = HttpError(status: int, detail: string)

  /** A handler's answer: a value, or the HTTP error it raises. */
  datatype Response<+T> = Ok(value: T) | Err(error: HttpError)

  const DefaultUserId: string := "default_user"
  const NoGoal: HttpError := HttpError(404, "No learning goal found")
  const AllDone: HttpError := HttpError(400, "All milestones completed")

  /** Exams and diagnostics pass at 80%. */
  const PassMark: real := 0.8

  // ---------------------------------------------------------------------
  // get_user_id

  /** `str.isalnum()` for ASCII characters. */
  predicate IsAlnum(c: char) {
    'a' <= c <= 'z' || 'A' <= c <= 'Z' || '0' <= c <= '9'
  }

  /** The characters a user id may keep. */
  predicate IsIdChar(c: char) {
    IsAlnum(c) || c == '-' || c == '_'
  }

  /** The characters of `s` that may appear in a user id, in their order. */
  function SafeChars(s: string): (r: string)
    ensures |r| <= |s|
    ensures forall i :: 0 <= i < |r| ==> IsIdChar(r[i])
    ensures |s| == 1 ==> r == (if IsIdChar(s[0]) then s else [])
  {
    if s == [] then []
    else if IsIdChar(s[0]) then [s[0]] + SafeChars(s[1..])
    else SafeChars(s[1..])
  }

  /** The filter works character by character: the id of a concatenation is
      the concatenation of the ids, so the kept characters stay in order. */
  lemma {:induction false} SafeCharsAppend(a: string, b: string)
    ensures SafeChars(a + b) == SafeChars(a) + SafeChars(b)
  {
    if a == [] {
      assert a + b == b;
    } else {
      assert (a + b)[0] == a[0] && (a + b)[1..] == a[1..] + b;
      SafeCharsAppend(a[1..], b);
    }
  }

  /** A text made only of id characters is kept whole. */
  lemma {:induction false} SafeCharsKeepsClean(s: string)
    requires forall i :: 0 <= i < |s| ==> IsIdChar(s[i])
    ensures SafeChars(s) == s
  {
    if s != [] {
      SafeCharsKeepsClean(s[1..]);
    }
  }

  /** `get_user_id`: the header's id characters, or "default_user" when the
      header is absent, empty or has none. */
  function UserId(header: Option<string>): (r: string)
    ensures header.None? || header.value == [] ==> r == DefaultUserId
    ensures header.Some? && SafeChars(header.value) != [] ==> r == SafeChars(header.value)
    ensures header.Some? && SafeChars(header.value) == [] ==> r == DefaultUserId
    ensures r != [] && forall i :: 0 <= i < |r| ==> IsIdChar(r[i])
  {
    DefaultUserIdIsClean();
    if header.None? || header.value == [] then DefaultUserId
    else
      var safe := SafeChars(header.value);
      if safe == [] then DefaultUserId else safe
  }

  lemma DefaultUserIdIsClean()
    ensures forall i :: 0 <= i < |DefaultUserId| ==> IsIdChar(DefaultUserId[i])
  {
  }

  /** Sanitising an id that is already sanitised gives it back. */
  lemma UserIdIdempotent(header: Option<string>)
    ensures UserId(Some(UserId(header))) == UserId(header)
  {
    SafeCharsKeepsClean(UserId(header));
  }

  // ---------------------------------------------------------------------
  // Display titles

  /** The title shown for a project: at most 60 characters are kept, and
      "..." marks a cut. */
  function DisplayTitle(title: string): (r: string)
    ensures |title| <= 60 ==> r == title
    ensures |title| > 60 ==> |r| == 63 && r[..60] == title[..60] && r[60..] == "..."
    ensures |r| <= 63
  {
    if |title| > 60 then title[..60] + "..." else title
  }

  /** Shortening a shown title again changes nothing. */
  lemma DisplayTitleIdempotent(title: string)
    ensures DisplayTitle(DisplayTitle(title)) == DisplayTitle(title)
  {
    var r := DisplayTitle(title);
    if |title| > 60 {
      assert r[..60] + "..." == r;
    }
  }

  // ---------------------------------------------------------------------
  // get_flashcards

  /** A card as the API returns it, with the scheduling defaults. */
  datatype FlashcardResponse = FlashcardResponse(
    id: int,
    front: string,
    back: string,
    tags: seq<string>,
    easeFactor: real := 2.5,
    interval: int := 1,
    repetitions: int := 0,
    nextReviewDate: Option<string> := None)

  /** `get_flashcards`: one new card per concept of the milestone at the
      profile's index, numbered by position; none when the optimizer reports
      every milestone done or the index is past the end of the plan. */
  method GetFlashcards(goal: Option<LearningGoal>, profile: UserProfile)
    returns (r: Response<seq<FlashcardResponse>>)
    ensures goal.None? ==> r == Err(NoGoal)
    ensures goal.Some? ==> r.Ok?
    ensures goal.Some? && (Optimizer.FirstPending(goal.value.milestones, profile.completedMilestones).None?
                           || profile.currentMilestoneIndex >= |goal.value.milestones|)
      ==> r.value == []
    ensures goal.Some? && Optimizer.FirstPending(goal.value.milestones, profile.completedMilestones).Some?
                       && profile.currentMilestoneIndex < |goal.value.milestones|
      ==> var m := goal.value.milestones[profile.currentMilestoneIndex];
        && |r.value| == |m.concepts|
        && forall i :: 0 <= i < |m.concepts| ==>
             var card := r.value[i];
             && card.id == i
             && card.front == "What is " + m.concepts[i] + "?"
             && card.back == "Definition and explanation of " + m.concepts[i]
             && card.tags == [m.title, "auto-generated"]
             && card.easeFactor == 2.5 && card.interval == 1 && card.repetitions == 0
             && card.nextReviewDate == None
  {
    if goal.None? {
      return Err(NoGoal);
    }
    var g := goal.value;
    var plan := Optimizer.GenerateCurriculum(g, profile);
    if plan.AllMilestonesCompleted? {
      return Ok([]);
    }
    if profile.currentMilestoneIndex >= |g.milestones| {
      return Ok([]);
    }
    var m := g.milestones[profile.currentMilestoneIndex];
    var cards: seq<FlashcardResponse> := [];
    for i := 0 to |m.concepts|
      invariant |cards| == i
      invariant forall j :: 0 <= j < i ==>
        cards[j] == FlashcardResponse(j, "What is " + m.concepts[j] + "?",
                                      "Definition and explanation of " + m.concepts[j],
                                      [m.title, "auto-generated"])
    {
      var concept := m.concepts[i];
      cards := cards + [FlashcardResponse(
        id := i,
        front := "What is " + concept + "?",
        back := "Definition and explanation of " + concept,
        tags := [m.title, "auto-generated"],
        easeFactor := 2.5,
        interval := 1,
        repetitions := 0)];
    }
    r := Ok(cards);
  }

  // ---------------------------------------------------------------------
  // Diagnostics and exams

  /** What a submission answers: the stored result and whether it passed. */
  datatype ExamReport = ExamReport(result: AssessmentResult, passed: bool)

  /** `submit_diagnostic`: the graded result, stamped with the time, is
      appended to the history and nothing else in the profile changes; it
      reports a pass at 80% but never advances the plan. */
  method SubmitDiagnostic(goal: Option<LearningGoal>, profile: UserProfile,
                          graded: AssessmentResult, now: string)
    returns (r: Response<ExamReport>, saved: UserProfile)
    ensures goal.None? ==> r == Err(NoGoal) && saved == profile
    ensures goal.Some? ==> r.Ok?
    ensures r.Ok? ==> r.value.result == graded.(timestamp := now)
    ensures r.Ok? ==> (r.value.passed <==> graded.score >= PassMark)
    ensures r.Ok? ==> saved == profile.(assessmentHistory := profile.assessmentHistory + [r.value.result])
    ensures saved.completedMilestones == profile.completedMilestones
    ensures saved.currentMilestoneIndex == profile.currentMilestoneIndex
  {
    saved := profile;
    if goal.None? {
      return Err(NoGoal), saved;
    }
    var result := graded.(timestamp := now);
    saved := saved.(assessmentHistory := saved.assessmentHistory + [result]);
    r := Ok(ExamReport(result, result.score >= PassMark));
  }

  /** The milestone an exam is about (`get_exam` and `submit_exam`): the one
      at the profile's index, with a 404 when there is no plan and a 400
      once the index is past the end of the plan. */
  function ExamMilestone(goal: Option<LearningGoal>, profile: UserProfile): (r: Response<Milestone>)
    ensures goal.None? ==> r == Err(NoGoal)
    ensures goal.Some? && profile.currentMilestoneIndex >= |goal.value.milestones| ==> r == Err(AllDone)
    ensures r.Ok? <==> goal.Some? && profile.currentMilestoneIndex < |goal.value.milestones|
    ensures r.Ok? ==> r.value == goal.value.milestones[profile.currentMilestoneIndex]
  {
    if goal.None? then Err(NoGoal)
    else if profile.currentMilestoneIndex >= |goal.value.milestones| then Err(AllDone)
    else Ok(goal.value.milestones[profile.currentMilestoneIndex])
  }

  /** `submit_exam`: on either error the profile is left as it was. Otherwise
      the stamped result is appended to the history, and the exam passes at
      80%; a pass records the milestone's title as completed, moves the index
      on by one and clears the active deck and its start date, while a fail
      changes nothing else. A profile on track stays on track, and with
      distinct titles the milestone examined is the one the optimizer would
      build the next deck for. */
  method SubmitExam(goal: Option<LearningGoal>, profile: UserProfile,
                    graded: AssessmentResult, now: string)
    returns (r: Response<ExamReport>, saved: UserProfile)
    ensures r.Ok? <==> ExamMilestone(goal, profile).Ok?
    ensures r.Err? ==> r.error == ExamMilestone(goal, profile).error && saved == profile
    ensures r.Ok? ==> r.value.result == graded.(timestamp := now)
    ensures r.Ok? ==> (r.value.passed <==> graded.score >= PassMark)
    ensures r.Ok? && r.value.passed ==>
      saved == profile.(
        assessmentHistory := profile.assessmentHistory + [r.value.result],
        completedMilestones := profile.completedMilestones + [ExamMilestone(goal, profile).value.title],
        currentMilestoneIndex := profile.currentMilestoneIndex + 1,
        currentDeckPath := None,
        milestoneStartDate := None)
    ensures r.Ok? && !r.value.passed ==>
      saved == profile.(assessmentHistory := profile.assessmentHistory + [r.value.result])
    ensures r.Ok? && OnTrack(goal.value, profile) ==> OnTrack(goal.value, saved)
    ensures r.Ok? && OnTrack(goal.value, profile) && DistinctTitles(goal.value) ==>
      Optimizer.FirstPending(goal.value.milestones, profile.completedMilestones)
        == Some(profile.currentMilestoneIndex)
  {
    saved := profile;
    var current := ExamMilestone(goal, profile);
    if current.Err? {
      return Err(current.error), saved;
    }
    var milestone := current.value;
    var result := graded.(timestamp := now);
    saved := saved.(assessmentHistory := saved.assessmentHistory + [result]);
    var passed := result.score >= PassMark;
    if passed {
      saved := saved.(completedMilestones := saved.completedMilestones + [milestone.title]);
      saved := saved.(currentMilestoneIndex := saved.currentMilestoneIndex + 1);
      saved := saved.(currentDeckPath := None);
      saved := saved.(milestoneStartDate := None);
    }
    r := Ok(ExamReport(result, passed));
    if OnTrack(goal.value, profile) {
      TitlesAppendOne(goal.value.milestones, profile.currentMilestoneIndex);
      if DistinctTitles(goal.value) {
        Optimizer.FirstPendingIsCurrentIndex(goal.value, profile);
      }
    }
  }
}
