# AI Learning Coach: a verified model of the study-plan core

The learning coach turns a learner's topic into a plan of milestones. It
names the project's directory after the topic. It builds an Anki deck for
the first milestone the learner has not completed, and it advances the
learner when an exam is passed. The same logic has two front ends: an HTTP
API (`backend/main.py`) and a command-line loop (`src/main.py`). This
project models the deterministic part of both in Dafny and proves what
they promise.

Modules follow the source files:

- `Models` (`models.dfy`): five records of `contest/src/models.py`
  (`Flashcard`, `AssessmentResult`, `Milestone`, `LearningGoal` and
  `UserProfile`), with the same fields and defaults. It also defines `OnTrack`, the consistency
  relation between a profile and its plan: the completed titles are
  exactly the titles of the milestones before the current index, in order.
- `Utils` (`utils.dfy`): `to_snake_case`, written as its four rewrites
  (lower-case, blank the non-slug characters, collapse blank runs into
  `_`, strip `_`). Proved about it:
  - the output alphabet is `[a-z0-9_]`, with no `_` at either end;
  - the letters and digits survive in order;
  - it is idempotent;
  - before the final strip, each maximal run of characters outside
    `[a-z0-9_]` becomes exactly one underscore (a run at either end is then
    stripped away);
  - stripping removes only the surrounding underscores;
  - the docstring example.
- `Optimizer` (`optimizer.dfy`): the search for the next milestone (a loop
  proved equal to a recursive specification), the deck and file names for
  new and remediation decks, and the `IndexError` of remediation.
- `Api` (`api.dfy`): user-id sanitising, display titles, the seed
  flashcards and the diagnostic and exam submissions. Each handler returns
  its HTTP error or its value, together with the profile as saved. An exam
  passes at 0.8.
- `Cli` (`cli.dfy`): Python's `str.strip()` and `int()` as the menu uses
  them, the menu loop, the baseline and the study loop. The study loop is a
  `while` loop over scripted turns, proved equal to the specification
  function `Run`. About `Run` it is proved that:
  - for a profile on track and a plan with distinct milestone titles, the
    profile stays on track, and neither crash of the loop happens: reading
    the title of no current milestone, and the remediation deck's
    `IndexError`;
  - nothing recorded is ever lost, whatever the plan.

  For one turn it is proved that an exam at 0.7 or more completes the
  milestone. When the index is inside the plan, a lower score installs the
  remediation deck; past the plan it ends in the `IndexError`.

  Two concrete lemmas show that distinct titles are needed. With a repeated
  title the loop can reach the `None.title` crash, and it can save a
  profile that is no longer on track. The CLI passes an exam at
  0.7, not 0.8.

## Model

| member | source | states |
|---|---|---|
| Models.FreshProfile | contest/src/models.py:46-55 | a profile built with no arguments has the documented defaults (name "Learner", empty mastery, history and completed list, index 0, no deck, no start date) and is on track for any plan |
| Models.RecordDefaults | contest/src/models.py:4-38 | a flashcard's tags default to empty, a milestone lasts 3 days by default, an assessment's concept lists default to empty |
| Models.Titles | src/main.py:142 | the list of milestone titles has one entry per milestone, in plan order |
| Utils.ToSnakeCase | contest/src/utils.py:3-16 | every character of the slug is in [a-z0-9_], it neither starts nor ends with '_', and it is never longer than the topic |
| Utils.Lower | contest/src/utils.py:9 | lower-casing keeps the length and maps each character by itself: 'A'..'Z' to 'a'..'z', every other character unchanged |
| Utils.Blank | contest/src/utils.py:11 | each character of [a-z0-9_] stays in its place and every other character becomes a blank, so only slug characters and blanks are left |
| Utils.NonSlugRun | contest/src/utils.py:11-13 | in the lower-cased topic, a maximal run of characters outside [a-z0-9_] becomes exactly one '_' after blanking and collapsing, and the text around it is rewritten independently |
| Utils.Join | contest/src/utils.py:13 | collapsing blank runs leaves no blank and never lengthens the text (how each run collapses is stated by JoinSplit and JoinRun) |
| Utils.JoinAlphabet | contest/src/utils.py:13 | after collapsing blank runs, a text of slug characters and blanks consists of slug characters only |
| Utils.Strip | contest/src/utils.py:15 | the text is the result with some underscores before it and some after it, and the result neither starts nor ends with '_' |
| Utils.StripPadded | contest/src/utils.py:15 | only the surrounding underscores are removed: a text that neither starts nor ends with '_' comes back from any padding of underscores |
| Utils.SnakeCaseKeepsLettersAndDigits | contest/src/utils.py:9-15 | deleting the underscores of the slug gives exactly the letters and digits of the lower-cased topic, in order |
| Utils.SnakeCaseEmptyIff | contest/src/utils.py:3-16 | the slug is empty exactly when the lower-cased topic has no ASCII letter or digit |
| Utils.SnakeCaseIdempotent | contest/src/utils.py:3-16 | converting a slug again gives it back unchanged |
| Utils.JoinSplit | contest/src/utils.py:13 | cutting a text just after a non-blank character cuts no blank run, so the two parts collapse independently |
| Utils.JoinRun | contest/src/utils.py:13 | a maximal run of any positive number of blanks between two texts becomes exactly one '_' and nothing else changes |
| Utils.SnakeCaseExample | contest/src/utils.py:6 | "Learn Discrete Mathematics" becomes "learn_discrete_mathematics" |
| Utils.ProjectDirName | backend/main.py:202-205 | the project id is the slug of the topic, and the time-stamped fallback exactly when the topic has no letter or digit; it is never empty when the fallback is not |
| Optimizer.FirstPending | contest/src/agents/optimizer_agent.py:38-42 | the index found is that of a milestone whose title is not completed, all earlier titles are completed, and nothing is found exactly when every title is completed |
| Optimizer.NextMilestoneIndex | contest/src/agents/optimizer_agent.py:38-45 | the search loop returns exactly the first milestone with an uncompleted title |
| Optimizer.FirstPendingIsCurrentIndex | contest/src/agents/optimizer_agent.py:38-42 | for a profile on track with distinct titles, the title search finds the milestone at the profile's index, and nothing once the index is at the end of the plan |
| Optimizer.GenerateCurriculum | contest/src/agents/optimizer_agent.py:37-81 | it reports that all milestones are completed exactly when every title is completed; otherwise it builds the deck for the first pending milestone, named "<smart goal> - <title>", in file "deck_<title with blanks as _>.apkg" |
| Optimizer.RemediationDeck | contest/src/agents/optimizer_agent.py:97-130 | there is no deck (IndexError) exactly when the profile's index is past the plan; otherwise the deck covers the milestone at the index, named "REMEDIATION: <title>", in file "deck_REMEDIATION_<title with blanks as _>.apkg" |
| Optimizer.ReplaceBlanks | contest/src/agents/optimizer_agent.py:79 | the file-name body has the title's length, with each blank replaced by '_' and every other character kept |
| Optimizer.DeckFileName | contest/src/agents/optimizer_agent.py:79 | the file name is the prefix, then the title with each blank as '_' and every other character kept, then ".apkg" (the same naming serves the remediation deck at line 130) |
| Optimizer.DeckFileNameShape | contest/src/agents/optimizer_agent.py:79 | a deck file name has no blank, keeps its prefix, ends in ".apkg", is 5 characters longer than prefix and title together, and gives the title back when the title has no '_' |
| Api.SafeChars | backend/main.py:63 | the kept characters are ASCII letters, digits, '-' and '_', and there are no more of them than in the header; a single character is kept exactly when it is allowed (with SafeCharsAppend, the result is the header's allowed characters in order) |
| Api.SafeCharsAppend | backend/main.py:63 | the filter works character by character: the filter of a concatenation is the concatenation of the filters |
| Api.UserId | backend/main.py:54-64 | a missing or empty header gives "default_user", as does a header with no allowed character; otherwise the result is the header's allowed characters; the id is never empty and uses only allowed characters |
| Api.UserIdIdempotent | backend/main.py:54-64 | sending a sanitised id back as the header yields the same id |
| Api.DisplayTitle | backend/main.py:189 | a title of at most 60 characters is shown whole; a longer one shows its first 60 characters followed by "...", 63 in all |
| Api.DisplayTitleIdempotent | backend/main.py:218 | shortening a shown title again changes nothing |
| Api.GetFlashcards | backend/main.py:245-285 | 404 without a plan; no cards when the optimizer reports all milestones completed or the index is past the plan; otherwise one card per concept of the current milestone, numbered from 0, with front "What is <c>?", back "Definition and explanation of <c>", tags [title, "auto-generated"], ease 2.5, interval 1, repetitions 0, no review date |
| Api.SubmitDiagnostic | backend/main.py:338-370 | 404 without a plan, and the profile is not changed; otherwise the result, stamped with the time, is appended to the history and nothing else changes; it reports a pass at a score of 0.8 or more |
| Api.ExamMilestone | backend/main.py:382-389 | 404 without a plan, 400 "All milestones completed" once the index is past the plan, otherwise the milestone at the index |
| Api.SubmitExam | backend/main.py:404-449 | on either error the profile is unchanged; otherwise the stamped result is appended and the exam passes at 0.8. A pass appends the milestone's title, moves the index on by one and clears deck and start date; a fail changes nothing else. On-track profiles stay on track, and with distinct titles the milestone examined is the optimizer's next milestone |
| Cli.ListedTitle | src/main.py:33-34 | a title of at most 60 characters is listed whole; a longer one keeps its first 57 characters followed by "...", 60 in all |
| Cli.ListedTitleIdempotent | src/main.py:33-34 | listing a listed title changes nothing |
| Cli.ListEntry | src/main.py:31-35 | the entry keeps the directory name and lists the SMART goal, or the directory name when the plan has none |
| Cli.StripSpace | src/main.py:54 | the stripped reply neither starts nor ends with a Python whitespace character |
| Cli.StripSpacePadded | src/main.py:54 | stripping removes exactly the surrounding whitespace: a text without whitespace at its ends comes back from any padding |
| Cli.ParseInt | src/main.py:63 | `int()` accepts exactly an optional sign followed by ASCII digits with single underscores between digits, and yields their value (negated for '-'); every such numeral, signed or not, is accepted |
| Cli.DecimalRoundTrip | src/main.py:63 | `int()` reads back the decimal numeral of any natural number |
| Cli.Classify | src/main.py:54-67 | a reply starts a new lesson exactly when it strips to "0"; it picks project k exactly when it reads as the integer k+1 and k is a listed index; otherwise it is invalid |
| Cli.ChooseByNumber | src/main.py:62-65 | typing the number shown for a listed project, with any surrounding whitespace, selects that project |
| Cli.ReadMenu | src/main.py:53-69 | the prompt loop stops at the first valid reply, all earlier replies being invalid, or at the end of input |
| Cli.GetProjectChoice | src/main.py:40-69 | after invalid replies, "0" starts a new lesson named by the next line's slug (or "project_<stamp>" when the slug is empty), and a project number continues that project's directory; the input may end first |
| Cli.RecordBaseline | src/main.py:124-128 | the baseline result is stamped and appended to the history, and nothing else in the profile changes |
| Cli.BaselineKeepsOnTrack | src/main.py:127-128 | recording the baseline keeps the profile on track |
| Cli.OpenDeck | src/main.py:161-173 | with a non-empty deck path recorded and the index equal to the number of completed titles, the recorded deck is resumed unchanged; otherwise the fresh deck and its time are recorded; nothing else changes and a deck is always active afterwards |
| Cli.Grade | src/main.py:196-226 | the result is stamped and appended; the title is completed exactly when the score is at least 0.7; grading fails (the remediation `IndexError`) exactly when the score is lower and the index is past the plan |
| Cli.TakeTurnEnds | src/main.py:160-236 | a turn ends the loop only by end of input, quitting, the remediation `IndexError` or declining to continue, and goes on to the next turn exactly when the exam was taken, grading succeeded and the reply to "continue?" is "y" or "Y" |
| Cli.TakeTurnGrading | src/main.py:196-236 | at 0.7 or more the title is completed, the index moves on and deck and start date are cleared; below it, completed titles and index stay and the remediation deck and its time become active, or the loop crashes when the index is past the plan; the graded profile goes on to the next turn on "y"/"Y" and is saved with the loop ending otherwise |
| Cli.RepliesAreLowered | src/main.py:180-234 | a reply quits exactly when it lower-cases to "q", and continues exactly when it lower-cases to "y" |
| Cli.RunEnds | src/main.py:139-155 | the session ends "completed", with the profile unchanged, exactly when as many titles are completed as the plan has milestones; it crashes with no current milestone, the profile unchanged, exactly when every title is completed but the counts differ (both directions); with no turns left the profile is unchanged |
| Cli.PlayTurn | src/main.py:160-236 | one pass of the loop body, updating the profile step by step, equals the specification step `TakeTurn` |
| Cli.StudyLoop | src/main.py:139-236 | the study loop ends with exactly the outcome and saved profile that `Run` specifies |
| Cli.TakeTurnKeepsOnTrack | src/main.py:160-231 | one turn on the current milestone keeps an on-track profile on track and can neither crash nor report completion |
| Cli.RunKeepsOnTrack | src/main.py:139-236 | with an on-track profile and distinct titles the loop never crashes, the saved profile stays on track, and a completed session has recorded every title in plan order |
| Cli.TakeTurnOnlyAppends | src/main.py:199-217 | one turn only appends to the completed titles and to the history, and adds at least as many results as titles |
| Cli.RunOnlyAppends | src/main.py:139-236 | whatever the outcome, the saved profile extends the starting one's completed titles and history, with at least one new result per newly completed milestone |
| Cli.DuplicateTitlesLeaveTrack | src/main.py:141-236 | in the plan [a, a, b] with the first milestone completed (on track), the title search picks b; passing it and declining to continue saves completed titles [a, b] at index 2, which is not on track |
| Cli.DuplicateTitlesStall | src/main.py:141-155 | in a two-milestone plan with a repeated title, passing the first milestone and continuing ends in the crash with no current milestone |

## Left out

- Spaced repetition (SM-2), due-card ordering and graduation are not
  modelled. The review and sync handlers (backend/main.py:288-311) are
  stubs with no scheduling logic.
- The language-model agents are left out: plan creation, quiz and exam
  generation, grading, and card generation. So are their retries, the
  `.apkg` writer and the network. Their results are inputs: the plan, the
  graded `AssessmentResult` and the deck paths.
- File I/O is left out: project listing on disk, loading and saving the
  plan and the profile, legacy migration, and the fallback to the
  directory name when `learning_goal.json` cannot be read. A handler's
  save is modelled as the profile it returns.
- FastAPI routing, headers, CORS, response models, printed messages and
  `get_project`'s own 404 are left out.
- The clock is a parameter. `datetime.now()` readings and the
  `%Y%m%d_%H%M%S` stamp are opaque strings.
- Scores are reals and the pass marks are the exact reals 0.8 and 0.7.
  Float rounding is not modelled.
- Utils.Lower: lower-cases ASCII letters only. Python's Unicode
  `lower()` also maps some non-ASCII letters to ASCII ones (the Kelvin
  sign becomes 'k'), and the model does not. It can also lengthen a text
  ('İ' becomes 'i' and a combining dot, so `to_snake_case("İİ")` is
  "i_i"). So `Utils.ToSnakeCase`'s bound "never longer than the topic"
  holds in the source only for ASCII topics.
- Api.SafeChars: keeps ASCII letters and digits only. Python's
  `isalnum()` also accepts non-ASCII letters and digits.
- Cli.ParseInt: reads ASCII digits only. Python's `int()` also accepts
  other Unicode decimal digits. It also has no length limit, while CPython
  3.11 and later raise `ValueError` for a numeral of more than 4300 digits;
  the menu reads such a reply as invalid either way, unless that many
  projects are listed.
- `backend/main.py` and `src/main.py` import `src.models`,
  `src.agents.optimizer_agent` and `src.utils`. Those files are not part
  of this model. `contest/src/models.py`,
  `contest/src/agents/optimizer_agent.py` and `contest/src/utils.py` stand
  in for them. They are not the same files: `src.models`'s
  `AssessmentResult` has fields that the contest one lacks (`excelled_at`,
  `improvement_areas`, `challenges`, read at backend/main.py:366-368 and
  src/main.py:131-136).
- `FlashcardList`, `FlashcardDeck`, `Question` and `Quiz`
  (contest/src/models.py:9-23) are not modelled. They carry the language
  model's cards and quiz questions, which are outside the model.
- The CLI's exam is one graded result per turn. An end of input in the
  middle of the exam's questions is not told apart from other inputs.
  Only the ends of input at the "ready" and "continue" prompts are
  modelled.
- The CLI's first-run prompt for a missing topic (src/main.py:97-99) and
  the extra result fields it prints (`excelled_at`, `improvement_areas`,
  `challenges`) are left out. They belong to records that are not part of
  this model.
- The milestone index is a natural number. The code only ever starts it
  at 0 and adds 1, so a negative index, which Python would read from the
  end of the plan, is not modelled.
