/** The command-line coach (src/main.py): the project menu and the study
    loop. The learner's replies, the deck writer's paths, the graded exams
    and the clock readings are inputs; reading and writing the project
    directory, the language-model agents and the printed messages are
    outside the model. */
module Cli {
  import opened Models
  import Utils
  import Optimizer

  // ---------------------------------------------------------------------
  // list_projects

  /** A project directory with the title shown for it in the menu. */
  datatype Project = Project(dirName: string, title: string)

  /** The menu title: a title longer than 60 characters keeps its first 57,
      followed by "...". */
  function ListedTitle(title: string): (r: string)
    ensures |title| <= 60 ==> r == title
    ensures |title| > 60 ==> |r| == 60 && r[..57] == title[..57] && r[57..] == "..."
    ensures |r| <= 60
  {
    if |title| > 60 then title[..57] + "..." else title
  }

  /** A listed title is listed unchanged. */
  lemma ListedTitleIdempotent(title: string)
    ensures ListedTitle(ListedTitle(title)) == ListedTitle(title)
  {
  }

  /** The entry for a directory holding a plan: the plan's SMART goal, or
      the directory name when the plan has none. */
  function ListEntry(dirName: string, smartGoal: Option<string>): (r: Project)
    ensures r.dirName == dirName
    ensures smartGoal.None? ==> r.title == ListedTitle(dirName)
    ensures smartGoal.Some? ==> r.title == ListedTitle(smartGoal.value)
  {
    Project(dirName, ListedTitle(if smartGoal.Some? then smartGoal.value else dirName))
  }

  // ---------------------------------------------------------------------
  // str.strip() and int()

  /** `str.isspace()`: the characters Python strips by default. */
  predicate IsSpace(c: char) {
    var n := c as int;
    || 9 <= n <= 13 || 28 <= n <= 32 || n == 0x85 || n == 0xA0 || n == 0x1680
    || 0x2000 <= n <= 0x200A || n == 0x2028 || n == 0x2029 || n == 0x202F
    || n == 0x205F || n == 0x3000
  }

  predicate AllSpace(s: string) {
    forall i :: 0 <= i < |s| ==> IsSpace(s[i])
  }

  function StripSpaceLeft(s: string): (r: string)
    ensures |r| <= |s| && r == s[|s| - |r|..]
    ensures AllSpace(s[..|s| - |r|])
    ensures r == [] || !IsSpace(r[0])
  {
    if s != [] && IsSpace(s[0]) then
      var r := StripSpaceLeft(s[1..]);
      SpaceHead(s, r);
      r
    else s
  }

  /** One whitespace character more in front of a stripped text. */
  lemma SpaceHead(s: string, r: string)
    requires s != [] && IsSpace(s[0])
    requires |r| <= |s| - 1 && r == s[1..][|s| - 1 - |r|..]
    requires AllSpace(s[1..][..|s| - 1 - |r|])
    ensures r == s[|s| - |r|..] && AllSpace(s[..|s| - |r|])
  {
    var k := |s| - |r|;
    forall i | 0 < i < k ensures IsSpace(s[..k][i]) {
      assert s[..k][i] == s[1..][..k - 1][i - 1];
    }
  }

  function StripSpaceRight(s: string): (r: string)
    ensures |r| <= |s| && r == s[..|r|]
    ensures AllSpace(s[|r|..])
    ensures r == [] || !IsSpace(r[|r| - 1])
  {
    if s != [] && IsSpace(s[|s| - 1]) then
      var p := s[..|s| - 1];
      var r := StripSpaceRight(p);
      assert p[..|r|] == s[..|r|];
      assert s[|r|..] == p[|r|..] + [s[|s| - 1]];
      r
    else s
  }

  /** `str.strip()` with no argument. */
  function StripSpace(s: string): (r: string)
    ensures |r| <= |s|
    ensures r == [] || (!IsSpace(r[0]) && !IsSpace(r[|r| - 1]))
  {
    StripSpaceRight(StripSpaceLeft(s))
  }

  lemma {:induction false} StripLeftPadded(a: string, m: string)
    requires AllSpace(a) && (m == [] || !IsSpace(m[0]))
    ensures StripSpaceLeft(a + m) == m
  {
    if a == [] {
      assert a + m == m;
    } else {
      assert (a + m)[0] == a[0] && (a + m)[1..] == a[1..] + m;
      StripLeftPadded(a[1..], m);
    }
  }

  lemma {:induction false} StripRightPadded(m: string, b: string)
    requires AllSpace(b) && (m == [] || !IsSpace(m[|m| - 1]))
    ensures StripSpaceRight(m + b) == m
  {
    if b == [] {
      assert m + b == m;
    } else {
      var b' := b[..|b| - 1];
      assert (m + b)[|m + b| - 1] == b[|b| - 1] && (m + b)[..|m + b| - 1] == m + b';
      StripRightPadded(m, b');
    }
  }

  /** Surrounding whitespace is all that `strip` removes: a text that neither
      starts nor ends with whitespace comes back from any padding. */
  lemma StripSpacePadded(a: string, m: string, b: string)
    requires AllSpace(a) && AllSpace(b)
    requires m == [] || (!IsSpace(m[0]) && !IsSpace(m[|m| - 1]))
    ensures StripSpace(a + m + b) == m
  {
    if m == [] {
      assert a + m + b == a + b;
      StripLeftPadded(a + b, []);
      assert a + b + [] == a + b;
      assert StripSpaceLeft(a + b) == [];
    } else {
      assert a + m + b == a + (m + b);
      StripLeftPadded(a, m + b);
      StripRightPadded(m, b);
    }
  }

  predicate IsDigit(c: char) { '0' <= c <= '9' }

  /** The digit part of an integer literal as `int()` reads it in base 10:
      ASCII digits, with single underscores allowed between two digits. */
  predicate WellFormedDigits(s: string) {
    && |s| > 0 && IsDigit(s[0]) && IsDigit(s[|s| - 1])
    && (forall i :: 0 <= i < |s| ==> IsDigit(s[i]) || s[i] == '_')
    && (forall i :: 0 <= i < |s| - 1 ==> s[i] == '_' ==> IsDigit(s[i + 1]))
  }

  /** The number written by the digits of `s`; underscores are skipped. */
  function DigitsValue(s: string): (r: nat)
    requires forall i :: 0 <= i < |s| ==> IsDigit(s[i]) || s[i] == '_'
  {
    if s == [] then 0
    else if s[|s| - 1] == '_' then DigitsValue(s[..|s| - 1])
    else
      assert IsDigit(s[|s| - 1]);
      DigitsValue(s[..|s| - 1]) * 10 + (s[|s| - 1] as int - '0' as int)
  }

  /** `int(s)` for a string without surrounding whitespace: an optional sign
      and well-formed digits, or nothing (`ValueError`). */
  function ParseInt(s: string): (r: Option<int>)
    ensures r.Some? ==> |s| > 0
    ensures r.Some? && IsDigit(s[0]) ==> WellFormedDigits(s) && r.value == DigitsValue(s)
    ensures r.Some? && !IsDigit(s[0]) ==>
      (s[0] == '+' || s[0] == '-') && WellFormedDigits(s[1..]) &&
      r.value == (if s[0] == '-' then -(DigitsValue(s[1..]) as int) else DigitsValue(s[1..]))
    ensures WellFormedDigits(s) ==> r == Some(DigitsValue(s))
    ensures |s| > 0 && (s[0] == '+' || s[0] == '-') && WellFormedDigits(s[1..]) ==>
      r == Some(if s[0] == '-' then -(DigitsValue(s[1..]) as int) else DigitsValue(s[1..]))
  {
    if s != [] && (s[0] == '+' || s[0] == '-') then
      var body := s[1..];
      if WellFormedDigits(body) then
        var v := DigitsValue(body);
        Some(if s[0] == '-' then -(v as int) else v)
      else None
    else if WellFormedDigits(s) then Some(DigitsValue(s))
    else None
  }

  function DigitChar(d: nat): (c: char)
    requires d < 10
    ensures IsDigit(c) && c as int - '0' as int == d
  {
    ('0' as int + d) as char
  }

  /** The decimal numeral of `n`, without leading zeros. */
  function Decimal(n: nat): (r: string)
    ensures |r| > 0
    ensures forall i :: 0 <= i < |r| ==> IsDigit(r[i])
    ensures r[0] != '0' || n == 0
  {
    if n < 10 then [DigitChar(n)] else Decimal(n / 10) + [DigitChar(n % 10)]
  }

  /** `int()` reads back what `Decimal` writes. */
  lemma {:induction false} DecimalRoundTrip(n: nat)
    ensures WellFormedDigits(Decimal(n))
    ensures DigitsValue(Decimal(n)) == n
    ensures ParseInt(Decimal(n)) == Some(n)
  {
    var s := Decimal(n);
    if n >= 10 {
      DecimalRoundTrip(n / 10);
      assert s[..|s| - 1] == Decimal(n / 10);
    }
  }

  // ---------------------------------------------------------------------
  // get_project_choice

  /** How one reply to the menu prompt is read. */
  datatype MenuAnswer = NewLesson | Pick(index: nat) | Invalid

  /** A reply selects "start a new lesson" when it is "0" once stripped, the
      project numbered `n` (from 1) when it reads as the integer `n` and
      that project is listed, and nothing otherwise. */
  function Classify(count: nat, line: string): (r: MenuAnswer)
    ensures r.NewLesson? <==> StripSpace(line) == "0"
    ensures r.Pick? ==> r.index < count && ParseInt(StripSpace(line)) == Some(r.index + 1)
    ensures StripSpace(line) != "0" && ParseInt(StripSpace(line)).Some? &&
            1 <= ParseInt(StripSpace(line)).value <= count ==>
              r == Pick(ParseInt(StripSpace(line)).value - 1)
  {
    var choice := StripSpace(line);
    if choice == "0" then NewLesson
    else match ParseInt(choice)
      case Some(n) => if 0 <= n - 1 < count then Pick(n - 1) else Invalid
      case None => Invalid
  }

  /** Typing the number shown for a project, with any surrounding
      whitespace, selects that project. */
  lemma ChooseByNumber(count: nat, k: nat, a: string, b: string)
    requires k < count && AllSpace(a) && AllSpace(b)
    ensures Classify(count, a + Decimal(k + 1) + b) == Pick(k)
  {
    var m := Decimal(k + 1);
    StripSpacePadded(a, m, b);
    DecimalRoundTrip(k + 1);
    assert m != "0" by { assert m[0] != '0'; }
  }

  /** The outcome of the project menu. */
  datatype Choice =
    | StartNew(dirName: string, topic: string)
    | ContinueProject(dirName: string)
    | MenuInputEnded

  /** The prompt loop of `get_project_choice`: replies are read until one is
      valid. `at` is the index of the accepted reply, or the number of
      replies when the input ends first; every reply before it is invalid. */
  method ReadMenu(count: nat, lines: seq<string>) returns (answer: MenuAnswer, at: nat)
    ensures at <= |lines|
    ensures forall i :: 0 <= i < at ==> Classify(count, lines[i]).Invalid?
    ensures at < |lines| ==> answer == Classify(count, lines[at]) && !answer.Invalid?
    ensures at == |lines| ==> answer.Invalid?
  {
    at := 0;
    answer := Invalid;
    while at < |lines|
      invariant at <= |lines| && answer.Invalid?
      invariant forall i :: 0 <= i < at ==> Classify(count, lines[i]).Invalid?
    {
      answer := Classify(count, lines[at]);
      if !answer.Invalid? {
        return;
      }
      at := at + 1;
    }
  }

  /** `get_project_choice`: "0" starts a new lesson named after the next line
      (or after the time stamp when the topic has no letter or digit); a
      project number continues that project; the input may end first. `at`
      is the index of the accepted reply, and every reply before it was
      invalid. */
  method GetProjectChoice(projects: seq<Project>, lines: seq<string>, stamp: string)
    returns (choice: Choice, at: nat)
    ensures at <= |lines|
    ensures forall i :: 0 <= i < at ==> Classify(|projects|, lines[i]).Invalid?
    ensures choice.ContinueProject? ==>
      at < |lines| && Classify(|projects|, lines[at]).Pick? &&
      choice.dirName == projects[Classify(|projects|, lines[at]).index].dirName
    ensures choice.StartNew? ==>
      at + 1 < |lines| && Classify(|projects|, lines[at]).NewLesson? &&
      choice.topic == lines[at + 1] &&
      choice.dirName == Utils.ProjectDirName(lines[at + 1], "project_" + stamp)
    ensures choice.MenuInputEnded? ==>
      at == |lines| || (at == |lines| - 1 && Classify(|projects|, lines[at]).NewLesson?)
  {
    var answer;
    answer, at := ReadMenu(|projects|, lines);
    if answer.Pick? {
      choice := ContinueProject(projects[answer.index].dirName);
    } else if answer.NewLesson? && at + 1 < |lines| {
      var topic := lines[at + 1];
      choice := StartNew(Utils.ProjectDirName(topic, "project_" + stamp), topic);
    } else {
      choice := MenuInputEnded;
    }
  }

  // ---------------------------------------------------------------------
  // Phase 1: the baseline

  /** A new plan's diagnostic result is stamped and appended to the history;
      nothing else in the profile changes. */
  function RecordBaseline(p: UserProfile, graded: AssessmentResult, now: string): (r: UserProfile)
    ensures |r.assessmentHistory| == |p.assessmentHistory| + 1
    ensures r.assessmentHistory[..|p.assessmentHistory|] == p.assessmentHistory
    ensures r.assessmentHistory[|p.assessmentHistory|] == graded.(timestamp := now)
    ensures r.(assessmentHistory := p.assessmentHistory) == p
  {
    p.(assessmentHistory := p.assessmentHistory + [graded.(timestamp := now)])
  }

  /** The baseline leaves a profile's progress as it was. */
  lemma BaselineKeepsOnTrack(goal: LearningGoal, p: UserProfile, graded: AssessmentResult, now: string)
    requires OnTrack(goal, p)
    ensures OnTrack(goal, RecordBaseline(p, graded, now))
  {
  }

  // ---------------------------------------------------------------------
  // Phase 2: the study loop

  /** What one pass of the loop reads: the path of a freshly written deck
      and the time it was made, the reply to "ready for the exam?" (`None`
      when the input has ended), the graded exam and its time, the path of
      a remediation deck and its time, and the reply to "continue?". */
  datatype Turn = Turn(
    deckPath: string,
    deckTime: string,
    action: Option<string>,
    exam: AssessmentResult,
    examTime: string,
    remediationPath: string,
    remediationTime: string,
    cont: Option<string>)

  /** How the loop ends. `NoCurrentMilestone` and `RemediationIndexError` are
      the crashes of the source (reading the title of no milestone, and
      indexing the plan past its end); `InputEnded` is an end of input at a
      prompt; `Unfinished` means that no further turn was given. */
  datatype Exit =
    | Completed
    | Quit
    | Stopped
    | NoCurrentMilestone
    | RemediationIndexError
    | InputEnded
    | Unfinished

  /** The end of a session and the profile as last saved. */
  datatype Outcome = Outcome(exit: Exit, saved: UserProfile)

  /** The learner is in the middle of the current milestone: a non-empty
      deck path is recorded and no milestone was completed since. */
  predicate Resumes(p: UserProfile) {
    p.currentDeckPath.Some? && p.currentDeckPath.value != [] &&
    p.currentMilestoneIndex == |p.completedMilestones|
  }

  predicate IsQuit(reply: string) { reply == "q" || reply == "Q" }

  predicate IsYes(reply: string) { reply == "y" || reply == "Y" }

  /** The CLI passes an exam at 70%. */
  const ExamPassMark: real := 0.7

  /** The deck step: resume the recorded deck, or record a fresh one. */
  function OpenDeck(p: UserProfile, t: Turn): (r: UserProfile)
    ensures r.(currentDeckPath := p.currentDeckPath, milestoneStartDate := p.milestoneStartDate) == p
    ensures Resumes(p) ==> r == p
    ensures !Resumes(p) ==> r.currentDeckPath == Some(t.deckPath) && r.milestoneStartDate == Some(t.deckTime)
    ensures r.currentDeckPath.Some?
  {
    if Resumes(p) then p
    else p.(currentDeckPath := Some(t.deckPath), milestoneStartDate := Some(t.deckTime))
  }

  /** The grading step for milestone `m`, on the profile `d` after the deck
      step: `None` when a failed exam makes the remediation deck index the
      plan past its end. */
  function Grade(goal: LearningGoal, d: UserProfile, m: Milestone, t: Turn): (r: Option<UserProfile>)
    ensures r.None? <==> t.exam.score < ExamPassMark && d.currentMilestoneIndex >= |goal.milestones|
    ensures r.Some? ==> r.value.assessmentHistory == d.assessmentHistory + [t.exam.(timestamp := t.examTime)]
    ensures r.Some? ==>
      (r.value.completedMilestones == d.completedMilestones + [m.title] <==> t.exam.score >= ExamPassMark)
  {
    var e := d.(assessmentHistory := d.assessmentHistory + [t.exam.(timestamp := t.examTime)]);
    if t.exam.score >= ExamPassMark then
      Some(e.(completedMilestones := e.completedMilestones + [m.title],
              currentMilestoneIndex := e.currentMilestoneIndex + 1,
              currentDeckPath := None,
              milestoneStartDate := None))
    else if Optimizer.RemediationDeck(goal, e).None? then None
    else Some(e.(currentDeckPath := Some(t.remediationPath),
                 milestoneStartDate := Some(t.remediationTime)))
  }

  /** Where one turn leaves the loop: on to the next turn with a profile,
      or out of the loop. */
  datatype Step = Continue(next: UserProfile) | Halt(outcome: Outcome)

  /** One pass of the loop for the milestone at plan index `k`: the deck
      step, the exam prompt, the grading and the "continue?" prompt. */
  function TakeTurn(goal: LearningGoal, p: UserProfile, k: nat, t: Turn): Step
    requires k < |goal.milestones|
  {
    var d := OpenDeck(p, t);
    if t.action.None? then Halt(Outcome(InputEnded, d))
    else if IsQuit(t.action.value) then Halt(Outcome(Quit, d))
    else match Grade(goal, d, goal.milestones[k], t)
      case None => Halt(Outcome(RemediationIndexError, d))
      case Some(q) =>
        if t.cont.None? then Halt(Outcome(InputEnded, q))
        else if !IsYes(t.cont.value) then Halt(Outcome(Stopped, q))
        else Continue(q)
  }

  /** The loop of `main`, turn by turn, as a function of the profile it
      starts from: it ends when as many titles are completed as the plan has
      milestones, and otherwise studies the first milestone whose title is
      not completed. */
  function Run(goal: LearningGoal, p: UserProfile, turns: seq<Turn>): Outcome
    decreases |turns|
  {
    var ms := goal.milestones;
    if |p.completedMilestones| == |ms| then Outcome(Completed, p)
    else match Optimizer.FirstPending(ms, p.completedMilestones)
      case None => Outcome(NoCurrentMilestone, p)
      case Some(k) =>
        if turns == [] then Outcome(Unfinished, p)
        else match TakeTurn(goal, p, k, turns[0])
          case Halt(o) => o
          case Continue(q) => Run(goal, q, turns[1..])
  }

  /** How a session can end: "completed" exactly when as many titles are
      completed as the plan has milestones; the crash with no current
      milestone exactly when every title is completed but the counts differ;
      and with no turns left, the profile unchanged. */
  lemma {:induction false} RunEnds(goal: LearningGoal, p: UserProfile, turns: seq<Turn>)
    ensures var o := Run(goal, p, turns);
      && (o.exit == Completed ==> |o.saved.completedMilestones| == |goal.milestones|)
      && (o.exit == NoCurrentMilestone ==>
            |o.saved.completedMilestones| != |goal.milestones| &&
            forall j :: 0 <= j < |goal.milestones| ==> goal.milestones[j].title in o.saved.completedMilestones)
      && (turns == [] ==> o.saved == p && o.exit in {Completed, NoCurrentMilestone, Unfinished})
    ensures |p.completedMilestones| == |goal.milestones| ==> Run(goal, p, turns) == Outcome(Completed, p)
    ensures (&& |p.completedMilestones| != |goal.milestones|
             && forall j :: 0 <= j < |goal.milestones| ==> goal.milestones[j].title in p.completedMilestones)
      ==> Run(goal, p, turns) == Outcome(NoCurrentMilestone, p)
    decreases |turns|
  {
    var ms := goal.milestones;
    if |p.completedMilestones| != |ms| && turns != [] {
      match Optimizer.FirstPending(ms, p.completedMilestones)
      case None =>
      case Some(k) =>
        TakeTurnEnds(goal, p, k, turns[0]);
        var s := TakeTurn(goal, p, k, turns[0]);
        if s.Continue? {
          RunEnds(goal, s.next, turns[1..]);
        }
    }
  }

  /** One pass of the loop body of `main` on the milestone at plan index
      `k`, updating the profile step by step as the source does; a crash
      reports the profile as it was last saved. */
  method PlayTurn(goal: LearningGoal, profile: UserProfile, k: nat, t: Turn) returns (s: Step)
    requires k < |goal.milestones|
    ensures s == TakeTurn(goal, profile, k, t)
  {
    var p := profile;
    var milestone := goal.milestones[k];
    if !Resumes(p) {
      p := p.(currentDeckPath := Some(t.deckPath));
      p := p.(milestoneStartDate := Some(t.deckTime));
    }
    if t.action.None? {
      return Halt(Outcome(InputEnded, p));
    }
    if IsQuit(t.action.value) {
      return Halt(Outcome(Quit, p));
    }
    var lastSaved := p;
    p := p.(assessmentHistory := p.assessmentHistory + [t.exam.(timestamp := t.examTime)]);
    if t.exam.score >= ExamPassMark {
      p := p.(completedMilestones := p.completedMilestones + [milestone.title]);
      p := p.(currentMilestoneIndex := p.currentMilestoneIndex + 1);
      p := p.(currentDeckPath := None);
      p := p.(milestoneStartDate := None);
    } else if p.currentMilestoneIndex >= |goal.milestones| {
      return Halt(Outcome(RemediationIndexError, lastSaved));
    } else {
      p := p.(currentDeckPath := Some(t.remediationPath));
      p := p.(milestoneStartDate := Some(t.remediationTime));
    }
    if t.cont.None? {
      s := Halt(Outcome(InputEnded, p));
    } else if !IsYes(t.cont.value) {
      s := Halt(Outcome(Stopped, p));
    } else {
      s := Continue(p);
    }
  }

  /** Phase 2 of `main`: the study loop over the given turns, with the same
      outcome as `Run`. */
  method StudyLoop(goal: LearningGoal, profile: UserProfile, turns: seq<Turn>) returns (o: Outcome)
    ensures o == Run(goal, profile, turns)
  {
    var ms := goal.milestones;
    var p := profile;
    var i := 0;
    var running := true;
    o := Outcome(Unfinished, p);
    while running
      invariant 0 <= i <= |turns|
      invariant running ==> Run(goal, profile, turns) == Run(goal, p, turns[i..])
      invariant !running ==> o == Run(goal, profile, turns)
      decreases |turns| - i, running
    {
      if |p.completedMilestones| == |ms| {
        o, running := Outcome(Completed, p), false;
        continue;
      }
      var current := Optimizer.NextMilestoneIndex(ms, p.completedMilestones);
      if current.None? {
        o, running := Outcome(NoCurrentMilestone, p), false;
        continue;
      }
      if i == |turns| {
        o, running := Outcome(Unfinished, p), false;
        continue;
      }
      assert turns[i..][0] == turns[i] && turns[i..][1..] == turns[i + 1..];
      var step := PlayTurn(goal, p, current.value, turns[i]);
      if step.Halt? {
        o, running := step.outcome, false;
      } else {
        p, i := step.next, i + 1;
      }
    }
  }

  /** One turn on the milestone at the profile's index keeps a profile on
      track and cannot crash. */
  lemma TakeTurnKeepsOnTrack(goal: LearningGoal, p: UserProfile, t: Turn)
    requires OnTrack(goal, p) && p.currentMilestoneIndex < |goal.milestones|
    ensures var s := TakeTurn(goal, p, p.currentMilestoneIndex, t);
      && (s.Continue? ==> OnTrack(goal, s.next))
      && (s.Halt? ==> OnTrack(goal, s.outcome.saved)
                      && s.outcome.exit != NoCurrentMilestone
                      && s.outcome.exit != RemediationIndexError
                      && s.outcome.exit != Completed)
  {
    var k := p.currentMilestoneIndex;
    var d := OpenDeck(p, t);
    assert OnTrack(goal, d);
    if t.action.Some? && !IsQuit(t.action.value) {
      TakeTurnGrading(goal, p, k, t);
      if t.exam.score >= ExamPassMark {
        TitlesAppendOne(goal.milestones, k);
      }
    }
  }

  /** The pass/fail rule of a turn whose exam was taken. At 70% or more the
      milestone's title is completed, the index moves on and the deck and its
      start date are cleared; below it nothing is completed, the index stays
      and the remediation deck becomes the active deck, unless the index is
      past the end of the plan, where building that deck fails. The graded
      profile is then kept for the next turn on "y"/"Y", and saved with the
      loop ending otherwise. */
  lemma TakeTurnGrading(goal: LearningGoal, p: UserProfile, k: nat, t: Turn)
    requires k < |goal.milestones|
    requires t.action.Some? && !IsQuit(t.action.value)
    ensures var s := TakeTurn(goal, p, k, t);
      var d := OpenDeck(p, t);
      var h := d.assessmentHistory + [t.exam.(timestamp := t.examTime)];
      var q := if s.Continue? then s.next else s.outcome.saved;
      && (t.exam.score >= ExamPassMark ==>
            q == d.(assessmentHistory := h,
                    completedMilestones := d.completedMilestones + [goal.milestones[k].title],
                    currentMilestoneIndex := d.currentMilestoneIndex + 1,
                    currentDeckPath := None,
                    milestoneStartDate := None))
      && (t.exam.score < ExamPassMark && d.currentMilestoneIndex < |goal.milestones| ==>
            q == d.(assessmentHistory := h,
                    currentDeckPath := Some(t.remediationPath),
                    milestoneStartDate := Some(t.remediationTime)))
      && (t.exam.score < ExamPassMark && d.currentMilestoneIndex >= |goal.milestones| ==>
            s == Halt(Outcome(RemediationIndexError, d)))
      && (t.exam.score >= ExamPassMark || d.currentMilestoneIndex < |goal.milestones| ==>
            && (t.cont.None? ==> s == Halt(Outcome(InputEnded, q)))
            && (t.cont.Some? && !IsYes(t.cont.value) ==> s == Halt(Outcome(Stopped, q)))
            && (t.cont.Some? && IsYes(t.cont.value) ==> s == Continue(q)))
  {
  }

  /** A turn ends the loop only by an end of input, by quitting, by the
      remediation deck's `IndexError` or by declining to continue, and it
      goes on exactly when the exam was taken, graded without error, and
      the learner answered "y" or "Y". */
  lemma TakeTurnEnds(goal: LearningGoal, p: UserProfile, k: nat, t: Turn)
    requires k < |goal.milestones|
    ensures var s := TakeTurn(goal, p, k, t);
      && (s.Halt? ==> s.outcome.exit in {InputEnded, Quit, RemediationIndexError, Stopped})
      && (s.Continue? <==>
            && t.action.Some? && !IsQuit(t.action.value)
            && Grade(goal, OpenDeck(p, t), goal.milestones[k], t).Some?
            && t.cont.Some? && IsYes(t.cont.value))
  {
  }

  /** The replies are read after `str.lower()`: "q" or "Q" quits, and "y" or
      "Y" continues. */
  lemma RepliesAreLowered(reply: string)
    ensures IsQuit(reply) <==> Utils.Lower(reply) == "q"
    ensures IsYes(reply) <==> Utils.Lower(reply) == "y"
  {
    if |reply| == 1 {
      assert Utils.Lower(reply)[0] == Utils.LowerChar(reply[0]);
      assert reply == [reply[0]];
    }
  }

  /** For a profile on track with a plan whose titles are distinct, the loop
      never crashes, the saved profile stays on track, and a completed
      session has every title recorded in plan order. */
  lemma {:induction false} RunKeepsOnTrack(goal: LearningGoal, p: UserProfile, turns: seq<Turn>)
    requires OnTrack(goal, p) && DistinctTitles(goal)
    ensures var o := Run(goal, p, turns);
      && OnTrack(goal, o.saved)
      && o.exit != NoCurrentMilestone && o.exit != RemediationIndexError
      && (o.exit == Completed ==> o.saved.completedMilestones == Titles(goal.milestones))
    decreases |turns|
  {
    var ms := goal.milestones;
    assert ms[..|ms|] == ms;
    Optimizer.FirstPendingIsCurrentIndex(goal, p);
    if |p.completedMilestones| != |ms| && turns != [] {
      var k := p.currentMilestoneIndex;
      TakeTurnKeepsOnTrack(goal, p, turns[0]);
      var s := TakeTurn(goal, p, k, turns[0]);
      if s.Continue? {
        RunKeepsOnTrack(goal, s.next, turns[1..]);
      }
    }
  }

  /** `q` extends `p`: the completed titles and the history of `p` are
      prefixes of those of `q`, with at least as many new results as new
      titles. */
  predicate Extends(p: UserProfile, q: UserProfile) {
    && |p.completedMilestones| <= |q.completedMilestones|
    && q.completedMilestones[..|p.completedMilestones|] == p.completedMilestones
    && |p.assessmentHistory| <= |q.assessmentHistory|
    && q.assessmentHistory[..|p.assessmentHistory|] == p.assessmentHistory
    && |q.completedMilestones| - |p.completedMilestones|
         <= |q.assessmentHistory| - |p.assessmentHistory|
  }

  lemma ExtendsTransitive(p: UserProfile, q: UserProfile, r: UserProfile)
    requires Extends(p, q) && Extends(q, r)
    ensures Extends(p, r)
  {
    assert r.completedMilestones[..|p.completedMilestones|]
      == r.completedMilestones[..|q.completedMilestones|][..|p.completedMilestones|];
    assert r.assessmentHistory[..|p.assessmentHistory|]
      == r.assessmentHistory[..|q.assessmentHistory|][..|p.assessmentHistory|];
  }

  lemma TakeTurnOnlyAppends(goal: LearningGoal, p: UserProfile, k: nat, t: Turn)
    requires k < |goal.milestones|
    ensures var s := TakeTurn(goal, p, k, t);
      && (s.Continue? ==> Extends(p, s.next))
      && (s.Halt? ==> Extends(p, s.outcome.saved))
  {
    var d := OpenDeck(p, t);
    assert d.completedMilestones == p.completedMilestones;
    assert d.assessmentHistory == p.assessmentHistory;
  }

  /** Whatever happens, nothing recorded is lost: the saved profile extends
      the starting one's completed titles and history, and each completed
      milestone came with at least one new exam result. */
  lemma {:induction false} RunOnlyAppends(goal: LearningGoal, p: UserProfile, turns: seq<Turn>)
    ensures Extends(p, Run(goal, p, turns).saved)
    decreases |turns|
  {
    var ms := goal.milestones;
    if |p.completedMilestones| != |ms| && turns != [] {
      match Optimizer.FirstPending(ms, p.completedMilestones)
      case None =>
      case Some(k) =>
        TakeTurnOnlyAppends(goal, p, k, turns[0]);
        var s := TakeTurn(goal, p, k, turns[0]);
        if s.Continue? {
          RunOnlyAppends(goal, s.next, turns[1..]);
          ExtendsTransitive(p, s.next, Run(goal, s.next, turns[1..]).saved);
        }
    }
  }

  /** Distinct titles are needed to stay on track: in the plan `[a, a, b]`
      with the first milestone completed, the title search skips to `b`, and
      passing it records `b`'s title where the plan has `a`'s. */
  lemma DuplicateTitlesLeaveTrack(a: Milestone, b: Milestone, t: Turn, rest: seq<Turn>)
    requires a.title != b.title
    requires t.action.Some? && !IsQuit(t.action.value)
    requires t.exam.score >= ExamPassMark && t.cont == Some("n")
    ensures var goal := LearningGoal("", "", [a, a, b], 9);
      var p := UserProfile().(completedMilestones := [a.title], currentMilestoneIndex := 1);
      && OnTrack(goal, p)
      && var o := Run(goal, p, [t] + rest);
         o.exit == Stopped && o.saved.completedMilestones == [a.title, b.title] && !OnTrack(goal, o.saved)
  {
    var goal := LearningGoal("", "", [a, a, b], 9);
    var p := UserProfile().(completedMilestones := [a.title], currentMilestoneIndex := 1);
    assert goal.milestones[..1] == [a];
    assert goal.milestones[2].title !in p.completedMilestones;
    Optimizer.FirstPendingIsFirst(goal.milestones, p.completedMilestones, 2);
    var q := TakeTurn(goal, p, 2, t);
    assert q == Halt(Outcome(Stopped, q.outcome.saved));
    assert q.outcome.saved.currentMilestoneIndex == 2;
    assert goal.milestones[..2] == [a, a];
  }

  /** Distinct titles are needed: in a plan whose two milestones share a
      title, passing the first leaves that title completed while only one
      of two milestones is, and the next pass finds no current milestone. */
  lemma DuplicateTitlesStall(m: Milestone, t: Turn, rest: seq<Turn>)
    requires t.action.Some? && !IsQuit(t.action.value)
    requires t.exam.score >= ExamPassMark && t.cont == Some("y")
    ensures Run(LearningGoal("", "", [m, m], 6), UserProfile(), [t] + rest).exit == NoCurrentMilestone
  {
    var goal := LearningGoal("", "", [m, m], 6);
    var p := UserProfile();
    assert Optimizer.FirstPending(goal.milestones, p.completedMilestones) == Some(0);
    var q := TakeTurn(goal, p, 0, t).next;
    assert q.completedMilestones == [m.title];
    assert ([t] + rest)[1..] == rest;
    assert Optimizer.FirstPending(goal.milestones, q.completedMilestones) == None;
  }
}
