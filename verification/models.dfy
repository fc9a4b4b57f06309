/** The records the learning coach keeps (contest/src/models.py), with the
    same fields and the same defaults, and the consistency relation between
    a learner's profile and the plan it follows. */
module Models {

  datatype Option<+T> = None | Some(value: T)

  /** A card to study: `tags` defaults to the empty list. */
  datatype Flashcard = Flashcard(front: string, back: string, tags: seq<string> := [])

  /** A graded quiz. `score` is documented as a fraction between 0 and 1 but
      nothing enforces it, so any real is allowed. */
  datatype AssessmentResult = AssessmentResult(
    score: real,
    correctConcepts: seq<string> := [],
    missedConcepts: seq<string> := [],
    feedback: string,
    timestamp: string)

  /** One phase of a plan: `durationDays` defaults to 3. */
  datatype Milestone = Milestone(
    title: string,
    description: string,
    concepts: seq<string>,
    durationDays: int := 3)

  datatype LearningGoal = LearningGoal(
    originalRequest: string,
    smartGoal: string,
    milestones: seq<Milestone>,
    totalDurationDays: int)

  /** The learner's progress through one plan. The milestone index only ever
      starts at 0 and grows by one, so it is a natural number here. */
  datatype UserProfile = UserProfile(
    name: string := "Learner",
    topicMastery: map<string, real> := map[],
    completedMilestones: seq<string> := [],
    currentMilestoneIndex: nat := 0,
    assessmentHistory: seq<AssessmentResult> := [],
    currentDeckPath: Option<string> := None,
    milestoneStartDate: Option<string> := None)

  /** The titles of a list of milestones, in order. */
  function Titles(ms: seq<Milestone>): (r: seq<string>)
    ensures |r| == |ms|
    ensures forall i :: 0 <= i < |ms| ==> r[i] == ms[i].title
  {
    if ms == [] then [] else [ms[0].title] + Titles(ms[1..])
  }

  lemma {:induction false} TitlesAppendOne(ms: seq<Milestone>, k: nat)
    requires k < |ms|
    ensures Titles(ms[..k + 1]) == Titles(ms[..k]) + [ms[k].title]
  {
    var a, b := Titles(ms[..k + 1]), Titles(ms[..k]) + [ms[k].title];
    assert |a| == |b|;
    forall i | 0 <= i < |a| ensures a[i] == b[i] {
    }
  }

  /** No two milestones of the plan share a title. */
  predicate DistinctTitles(goal: LearningGoal) {
    forall i, j :: 0 <= i < j < |goal.milestones| ==>
      goal.milestones[i].title != goal.milestones[j].title
  }

  /** The profile is consistent with the plan: the completed titles are
      exactly those of the milestones before the current index, in order. */
  ghost predicate OnTrack(goal: LearningGoal, p: UserProfile) {
    && p.currentMilestoneIndex <= |goal.milestones|
    && p.completedMilestones == Titles(goal.milestones[..p.currentMilestoneIndex])
  }

  /** A profile created with no arguments has the documented defaults, and
      it is on track for any plan. */
  lemma FreshProfile(goal: LearningGoal)
    ensures var p := UserProfile();
      && p.name == "Learner" && p.topicMastery == map[]
      && p.completedMilestones == [] && p.currentMilestoneIndex == 0
      && p.assessmentHistory == []
      && p.currentDeckPath == None && p.milestoneStartDate == None
      && OnTrack(goal, p)
  {
    assert goal.milestones[..0] == [];
  }

  /** The defaults of the other records. */
  lemma RecordDefaults(front: string, back: string, title: string, description: string,
                       concepts: seq<string>, score: real, feedback: string, timestamp: string)
    ensures Flashcard(front, back).tags == []
    ensures Milestone(title, description, concepts).durationDays == 3
    ensures var a := AssessmentResult(score, feedback := feedback, timestamp := timestamp);
      a.correctConcepts == [] && a.missedConcepts == [] && a.score == score
  {
  }
}
