/** The deterministic part of the curriculum optimizer
    (contest/src/agents/optimizer_agent.py): which milestone to study next,
    and how the deck and its file are named. The cards themselves come from
    a language model and the file from the deck writer; both are outside
    this model. */
module Optimizer {
  import opened Models

  /** Index of the first milestone, in plan order, whose title is not among
      the completed titles. */
  function FirstPending(ms: seq<Milestone>, done: seq<string>): (r: Option<nat>)
    ensures r.Some? ==> r.value < |ms| && ms[r.value].title !in done
    ensures r.Some? ==> forall j :: 0 <= j < r.value ==> ms[j].title in done
    ensures r.None? <==> forall j :: 0 <= j < |ms| ==> ms[j].title in done
  {
    if ms == [] then None
    else if ms[0].title !in done then Some(0)
    else match FirstPending(ms[1..], done)
      case None => None
      case Some(k) => Some(k + 1)
  }

  /** The search loop of `generate_curriculum_and_cards` (the CLI's main loop
      runs the same search to find its current milestone). */
  method NextMilestoneIndex(ms: seq<Milestone>, done: seq<string>) returns (next: Option<nat>)
    ensures next == FirstPending(ms, done)
  {
    next := None;
    var i := 0;
    while i < |ms|
      invariant 0 <= i <= |ms|
      invariant forall j :: 0 <= j < i ==> ms[j].title in done
    {
      if ms[i].title !in done {
        next := Some(i);
        FirstPendingIsFirst(ms, done, i);
        return;
      }
      i := i + 1;
    }
  }

  /** The first match is determined by the two halves of its contract. */
  lemma FirstPendingIsFirst(ms: seq<Milestone>, done: seq<string>, i: nat)
    requires i < |ms| && ms[i].title !in done
    requires forall j :: 0 <= j < i ==> ms[j].title in done
    ensures FirstPending(ms, done) == Some(i)
  {
  }

  /** For a profile on track with a plan whose titles are distinct, the
      title search finds exactly the milestone at the profile's index, and
      nothing once the index has reached the end of the plan. */
  lemma FirstPendingIsCurrentIndex(goal: LearningGoal, profile: UserProfile)
    requires OnTrack(goal, profile) && DistinctTitles(goal)
    ensures profile.currentMilestoneIndex < |goal.milestones| ==>
      FirstPending(goal.milestones, profile.completedMilestones) == Some(profile.currentMilestoneIndex)
    ensures profile.currentMilestoneIndex == |goal.milestones| ==>
      FirstPending(goal.milestones, profile.completedMilestones) == None
  {
    var ms, k, done := goal.milestones, profile.currentMilestoneIndex, profile.completedMilestones;
    assert done == Titles(ms[..k]);
    forall j | 0 <= j < k ensures ms[j].title in done {
      assert done[j] == ms[j].title;
    }
    if k < |ms| {
      FirstPendingIsFirst(ms, done, k);
    }
  }

  /** `s` with every blank replaced by an underscore (`str.replace(' ', '_')`). */
  function ReplaceBlanks(s: string): (r: string)
    ensures |r| == |s|
    ensures forall i :: 0 <= i < |s| ==> r[i] == (if s[i] == ' ' then '_' else s[i])
  {
    if s == [] then [] else [if s[0] == ' ' then '_' else s[0]] + ReplaceBlanks(s[1..])
  }

  /** A deck to build: the milestone it covers, the name shown in Anki and
      the name of the .apkg file. */
  datatype DeckSpec = DeckSpec(milestone: Milestone, deckName: string, fileName: string)

  /** What `generate_curriculum_and_cards` does next: report that nothing is
      left (the source returns the text "All milestones completed!" in place
      of a deck path), or build a deck for the next milestone. */
  datatype CurriculumPlan = AllMilestonesCompleted | BuildDeck(deck: DeckSpec)

  /** The .apkg file name for a title: the prefix, the title with its
      blanks as underscores, and the extension. */
  function DeckFileName(prefix: string, title: string): (r: string)
    ensures |r| == |prefix| + |title| + 5
    ensures r[..|prefix|] == prefix && r[|r| - 5..] == ".apkg"
    ensures forall i :: 0 <= i < |title| ==>
      r[|prefix| + i] == (if title[i] == ' ' then '_' else title[i])
  {
    prefix + ReplaceBlanks(title) + ".apkg"
  }

  /** The next deck for the learner, from the first milestone whose title is
      not completed; `AllMilestonesCompleted` exactly when every milestone
      title is completed. */
  method GenerateCurriculum(goal: LearningGoal, profile: UserProfile) returns (plan: CurriculumPlan)
    ensures plan.AllMilestonesCompleted? <==>
      forall j :: 0 <= j < |goal.milestones| ==> goal.milestones[j].title in profile.completedMilestones
    ensures plan.BuildDeck? ==>
      var k := FirstPending(goal.milestones, profile.completedMilestones).value;
      && plan.deck.milestone == goal.milestones[k]
      && plan.deck.deckName == goal.smartGoal + " - " + goal.milestones[k].title
      && plan.deck.fileName == "deck_" + ReplaceBlanks(goal.milestones[k].title) + ".apkg"
  {
    var next := NextMilestoneIndex(goal.milestones, profile.completedMilestones);
    if next.None? {
      return AllMilestonesCompleted;
    }
    var m := goal.milestones[next.value];
    var deckName := goal.smartGoal + " - " + m.title;
    var fileName := DeckFileName("deck_", m.title);
    plan := BuildDeck(DeckSpec(m, deckName, fileName));
  }

  /** The deck of `generate_remediation_cards`: it is for the milestone at the
      profile's index, and there is none (the source raises IndexError) when
      that index is past the end of the plan. */
  function RemediationDeck(goal: LearningGoal, profile: UserProfile): (r: Option<DeckSpec>)
    ensures r.None? <==> profile.currentMilestoneIndex >= |goal.milestones|
    ensures r.Some? ==>
      var m := goal.milestones[profile.currentMilestoneIndex];
      && r.value.milestone == m
      && r.value.deckName == "REMEDIATION: " + m.title
      && r.value.fileName == "deck_REMEDIATION_" + ReplaceBlanks(m.title) + ".apkg"
  {
    if profile.currentMilestoneIndex >= |goal.milestones| then None
    else
      var m := goal.milestones[profile.currentMilestoneIndex];
      Some(DeckSpec(m, "REMEDIATION: " + m.title, DeckFileName("deck_REMEDIATION_", m.title)))
  }

  /** A deck file name holds no blank, has the fixed prefix and extension,
      and keeps the title's length; for a title with no underscore the title
      can be read back from it. */
  lemma DeckFileNameShape(prefix: string, title: string)
    requires forall i :: 0 <= i < |prefix| ==> prefix[i] != ' '
    ensures var f := DeckFileName(prefix, title);
      && (forall i :: 0 <= i < |f| ==> f[i] != ' ')
      && f[..|prefix|] == prefix
      && f[|f| - 5..] == ".apkg"
      && |f| == |prefix| + |title| + 5
      && ('_' !in title ==> RestoreBlanks(f[|prefix|..|f| - 5]) == title)
  {
    var f := DeckFileName(prefix, title);
    var body := ReplaceBlanks(title);
    assert f == prefix + body + ".apkg";
    assert f[|prefix|..|f| - 5] == body;
    forall i | 0 <= i < |f| ensures f[i] != ' ' {
      if i < |prefix| {
      } else if i < |prefix| + |body| {
        assert f[i] == body[i - |prefix|];
      } else {
        assert f[i] == ".apkg"[i - |prefix| - |body|];
      }
    }
    if '_' !in title {
      var back := RestoreBlanks(body);
      assert |back| == |title|;
      forall i | 0 <= i < |title| ensures back[i] == title[i] {
        assert title[i] != '_' by { assert title[i] in title; }
      }
    }
  }

  /** The inverse reading of `ReplaceBlanks`: every underscore back to a blank. */
  function RestoreBlanks(s: string): (r: string)
    ensures |r| == |s|
    ensures forall i :: 0 <= i < |s| ==> r[i] == (if s[i] == '_' then ' ' else s[i])
  {
    if s == [] then [] else [if s[0] == '_' then ' ' else s[0]] + RestoreBlanks(s[1..])
  }
}
