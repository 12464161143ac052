# Curriculum progress tracker — eligibility engine and state edits

This project models the decision logic of a single-page study planner. A
student keeps three history lists of course codes: completed (approved),
current (in progress) and seen (attempted without passing). The planner
decides from these lists which courses of a curriculum ("malla") may be
taken.

The centre of the model is the prerequisite engine. It covers:

- the resolution of one prerequisite: a bare code, a `{code, requirement}`
  record, or a group of `options`;
- co-requisites, and the availability verdict of a course with its block and
  warning lists;
- the single-label course status, the list of available courses, and the
  validation of a batch of courses to take together.

Around the engine sit the application's own operations on the student's
state:

- `markAs`, and the buttons a course card offers for each status;
- the combined course list, in which the English levels form a prerequisite
  chain;
- the deletion of electives and custom courses;
- the timetable: reading "HH:MM" times, the hourly rows, and the checks a
  class passes before it is added;
- the progress statistics, the pending list and the colour band of a
  percentage;
- the personal grid: its initial copy of the curriculum, and moving a course
  between semesters;
- validation of a curriculum file, and the shape check of an imported user
  file.

Files:

| file | module | contents |
|---|---|---|
| basics.dfy | `Basics` | `Option`, `Result`, `Without` (`filter(c => c !== x)`), `Filter`, `Subseq`, `Count` |
| catalog.dfy | `Catalog` | prerequisite and co-requisite expressions, courses, semesters, the curriculum, the history snapshot |
| prerequisite_engine.dfy | `PrereqEngine` | the engine, plus a declarative reference reading (`Meets`) of when a prerequisite is met |
| engine_properties.dfy | `EngineProperties` | lemmas tying the engine to the reference reading and its functions to each other |
| scenarios.dfy | `Scenarios` | worked examples of the engine on concrete courses |
| decimal.dfy | `Decimal` | `String(n)`, `padStart(2, '0')` and `Number` on digit strings |
| history.dfy | `History` | `markAs`, the card actions, `getAllCourses`, `deleteElectiva`, `deleteCustomCourse` |
| schedule.dfy | `Schedule` | `split`, `timeToMinutes`, `generateTimeSlots`, the checks of `saveScheduleItem` |
| progress.dfy | `Progress` | `calculateSemesterStats`, `calculateStats`, the pending list, `getProgressClass` |
| personal_grid.dfy | `PersonalGrid` | `initializePersonalGrid`, `moveCourse` |
| data_manager.dfy | `DataManager` | a JSON value model, `validateMallaData`, `importUserData` |

JavaScript semantics are written out where they matter:

- `NaN` is `None`, and every comparison with it is false.
- Truthiness: `0`, `""`, `null` and `undefined` are falsy; arrays and objects
  are truthy.
- `find` returns the first match; `filter` keeps order; `push` appends.
- A `confirm()` answer, and whether `localStorage` accepts a write, are
  parameters.

Two behaviours of the engine are worth stating on their own:

- A course whose prerequisite list is missing or empty is available whatever
  its co-requisites say: `checkAvailability` returns "no prerequisites" before
  it looks at them. Two such courses that are each other's only co-requisite
  each pass batch validation alone (`Scenarios.CoreqIgnoredWithoutPrereqs`).
  Mutual co-requisites that also have a prerequisite pass together and fail
  alone (`Scenarios.MutualCoreqsValidTogether`).
- A `{code, requirement}` prerequisite whose requirement is not "approved",
  "current" or "seen" is never satisfied (`EngineProperties.RequirementsNest`).

## Model

| member | source | states |
|---|---|---|
| PrereqEngine.SimpleStatus | js/prerequisite-engine.js:85-115 | a bare code is satisfied through the first list holding it, in the order completed, current, seen; current and seen carry their warning; a code in no list is unmet, with the code as `missing` |
| PrereqEngine.QualifiedStatus | js/prerequisite-engine.js:133-163 | a qualified prerequisite is satisfied exactly when its requirement accepts the code's history tier, never with a warning, with the requirement as its condition; otherwise "Requires: requirement" with the code as `missing` |
| PrereqEngine.PrereqStatus | js/prerequisite-engine.js:80-166 | a warning always matches its tier (in progress with current, seen with seen); approved never warns; an object with neither options nor a non-empty code is invalid |
| PrereqEngine.FirstSatisfied | js/prerequisite-engine.js:118-131 | an option group that fails reports "no option met" with its full option list; success keeps the tier–warning pairing |
| EngineProperties.StatusMatchesMeets | js/prerequisite-engine.js:80-166 | resolution is satisfied iff the declarative rules say the prerequisite is met, recursively through option groups |
| EngineProperties.FirstSatisfiedMatchesMeets | js/prerequisite-engine.js:118-131 | the options from index i are satisfied iff some option from i on is met |
| EngineProperties.GroupYieldsFirstSatisfiedOption | js/prerequisite-engine.js:118-131 | a satisfied group returns its first satisfied option's status verbatim (every earlier option unmet); an unsatisfied group reports the whole list |
| EngineProperties.FirstSatisfiedIsFirst | js/prerequisite-engine.js:120-125 | the options loop returns the status of an option preceded only by unmet options |
| EngineProperties.EmptyGroupNeverSatisfied | js/prerequisite-engine.js:118-131 | an empty `options` array (truthy) is a group that is never satisfied |
| EngineProperties.OptionsShadowCode | js/prerequisite-engine.js:117-134 | an object with `options` is resolved as a group whatever its `code` and `requirement` say |
| EngineProperties.RequirementDefaultsToApproved | js/prerequisite-engine.js:135-143 | an absent or empty requirement behaves as "approved": only a completed course satisfies it |
| EngineProperties.RequirementsNest | js/prerequisite-engine.js:138-162 | "approved" implies "current" implies "seen"; any other requirement is never satisfied |
| EngineProperties.QualifiedSeenNeverWarns | js/prerequisite-engine.js:85-163 | `{code, requirement: "seen"}` accepts the same histories as the bare code, but only the bare code warns, and it warns exactly when the course is not completed |
| PrereqEngine.CoreqKey | js/prerequisite-engine.js:179 | a bare co-requisite names itself; an object names its `code` field, which may be missing |
| PrereqEngine.CheckCorequisites | js/prerequisite-engine.js:174-196 | satisfied iff every co-requisite is completed or current (seen does not count) iff no issues; the issues are the failing codes in declaration order, each as often as it is declared |
| PrereqEngine.LabelOf | js/prerequisite-engine.js:35 | a prerequisite is named by its bare code, or by a non-empty `code` field; otherwise by the whole expression, as the fallback from `code` to the expression does |
| PrereqEngine.BlockedBy | js/prerequisite-engine.js:30-44 | the loop adds at most one block per prerequisite; `EngineProperties.BlockedByExact` pins which |
| PrereqEngine.Warnings | js/prerequisite-engine.js:30-44 | the loop adds at most one warning per prerequisite; `EngineProperties.WarningsExact` pins which |
| PrereqEngine.CheckAvailability | js/prerequisite-engine.js:18-72 | "no prerequisites" iff the list is missing or empty; a co-requisite failure is reported iff there is a list, co-requisites are declared, and they fail; a prerequisite failure always names at least one blocker |
| EngineProperties.AvailabilityContents | js/prerequisite-engine.js:30-71 | what the verdict carries: a pass lists exactly the warnings of the prerequisites satisfied with one, in order, and every prerequisite is satisfied; either failure carries the block list of every unmet prerequisite, in order, even when the co-requisites are what failed; a co-requisite failure carries exactly the failing co-requisites |
| EngineProperties.AvailabilityFollowsRules | js/prerequisite-engine.js:18-72 | a course is available iff it has no prerequisite list, or all its prerequisites are met and all its co-requisites hold |
| EngineProperties.CoreqFailureTakesPrecedence | js/prerequisite-engine.js:46-57 | when every prerequisite passes but a co-requisite fails, the verdict is the co-requisite failure with an empty block list |
| EngineProperties.OutcomesDistribute | js/prerequisite-engine.js:30-44 | the block and warning lists of a concatenation are the concatenations of the parts' lists |
| EngineProperties.BlockedByExact | js/prerequisite-engine.js:26-44 | `blockedBy` is empty iff every prerequisite is satisfied, holds the label and reason of each unmet one, and nothing else |
| EngineProperties.WarningsExact | js/prerequisite-engine.js:26-44 | `warnings` holds the label and warning of each prerequisite satisfied with a warning, and nothing else |
| EngineProperties.CompletedPrereqsGiveNoWarnings | js/prerequisite-engine.js:67-71 | a course whose prerequisites are all completed bare codes is available with an empty warning list |
| PrereqEngine.Find | js/prerequisite-engine.js:235 | `find` returns None iff no course has the code, else the first course with that code |
| PrereqEngine.GetCourseStatus | js/prerequisite-engine.js:222-240 | each of the six labels holds iff its condition: history tiers first in the order completed, current, seen; then unknown when not in the catalog; then available or locked by the availability verdict |
| PrereqEngine.GetAvailableCourses | js/prerequisite-engine.js:204-214 | an order-preserving subsequence of the catalog holding exactly the courses not completed and available, each as often as the catalog lists it |
| EngineProperties.AvailableCoursesAgreeWithStatus | js/prerequisite-engine.js:204-240 | with unique codes, a listed course has status available, current or seen, and every course with status available is listed |
| PrereqEngine.ErrorFor | js/prerequisite-engine.js:253-267 | one error entry iff the code is in the catalog and not available against the trial snapshot, carrying the course name and its block list (empty when there is none) |
| PrereqEngine.BatchErrors | js/prerequisite-engine.js:252-268 | no errors iff no code of the batch is rejected; every error names a rejected code of the batch; its order and multiplicity are fixed by `EngineProperties.BatchErrorsFlat` |
| PrereqEngine.ValidateCurrentCourses | js/prerequisite-engine.js:249-274 | valid iff there are no errors iff no catalog course of the batch is unavailable when the batch replaces the current list; errors name only catalog courses of the batch |
| EngineProperties.BatchErrorsFlat | js/prerequisite-engine.js:252-268 | the batch's errors are the error entries of its codes concatenated in batch order, each code contributing its own entry (none or one) every time it occurs |
| EngineProperties.BatchErrorsAppend | js/prerequisite-engine.js:252-268 | the errors of a concatenated batch are the first part's errors followed by the second's, so with `ErrorFor` the list holds one entry per rejected occurrence, in batch order |
| EngineProperties.BatchErrorsExact | js/prerequisite-engine.js:252-268 | each error is exactly the entry of a rejected course, and each rejected code of the batch has its entry |
| EngineProperties.UnknownCodesAreSkipped | js/prerequisite-engine.js:253-254 | a batch of codes missing from the catalog is valid with no errors |
| Scenarios.SeenPrereqWarns | js/prerequisite-engine.js:100-107 | a prerequisite that is only seen leaves the course available with the "seen but not approved" warning |
| Scenarios.UnmetGroupBlocks | js/prerequisite-engine.js:126-130 | an unmet group blocks the course under the group itself and lists both options |
| Scenarios.CompletedCourseNotOffered | js/prerequisite-engine.js:204-214 | a completed course is not offered although available; the course it unlocks is offered; a locked course is not |
| Scenarios.MutualCoreqsValidTogether | js/prerequisite-engine.js:249-274 | two mutual co-requisites with a completed prerequisite pass together and fail alone |
| Scenarios.CoreqIgnoredWithoutPrereqs | js/prerequisite-engine.js:22-24 | co-requisites are not consulted when the prerequisite list is missing or empty: two such courses that name only each other as co-requisite each pass batch validation alone |
| Scenarios.BatchReplacesCurrent | js/prerequisite-engine.js:256-259 | the batch replaces the current list, so a co-requisite current before the batch no longer counts |
| Scenarios.SeenCoreqNotEnough | js/prerequisite-engine.js:184 | a seen course does not satisfy a co-requisite |
| Scenarios.CompletedOverridesLocked | js/prerequisite-engine.js:222-225 | a completed course reports approved although its own prerequisites are unmet |
| History.Forget | js/app.js:681-683 | the code is in no history list afterwards; every list keeps its other entries, in order |
| History.Retarget | js/app.js:197-202 | the list holds the code once (at the end) when it is the target and not at all otherwise; the other entries are unchanged, in order |
| History.MarkAs | js/app.js:196-206 | the code sits exactly once in the list the status names and in no other; every other code keeps its place in every list |
| History.MarkAsKeepsExclusive | js/app.js:197-202 | if no code is in two history lists before, none is after |
| History.MarkAsSetsStatus | js/app.js:197-202 | after the mark the course reports the status named; after 'none' it reports available, locked or unknown |
| History.MarkAsLastWins | js/app.js:197-202 | two marks of one course in a row leave the state of the second alone |
| History.CourseActions | js/app.js:176-194 | approved offers only 'none'; current offers approved, seen, none; seen offers approved, current, none, all enabled and in that order; any other status offers one 'current' button, enabled iff the course is available; hence no button re-applies the status and 'none' is offered iff the course has history |
| History.ActionsChangeStatus | js/app.js:176-194 | every button the card offers changes the course's reported status |
| History.EnglishLevels | js/app.js:211-217 | level i is named "Inglés Nivel i+1", carries the per-level credits, and requires exactly the previous level (the first level requires nothing) |
| History.EnglishChainAvailability | js/app.js:211-217 | the first English level is always available; each later level is available iff the previous one has any history |
| History.AllCourses | js/app.js:208-221 | the combined list has the sizes of its parts added, and holds exactly the semester courses, English levels, electives and custom courses |
| History.FindAppend | js/prerequisite-engine.js:235 | `find` on a concatenation looks in the second part only when the first has no match |
| History.AllCoursesLookup | js/app.js:208-221 | a code is looked up in the curriculum first, then the English levels, electives and custom courses, so a duplicated official code shadows the later ones |
| History.DeleteElectiva | js/app.js:678-688 | declining changes nothing; on confirmation exactly the electives with other codes remain, in order and each as often as before, and the history is the code forgotten: it leaves every list, which keep their other entries in order; custom courses are untouched |
| History.DeleteCustomCourse | js/app.js:742-752 | declining changes nothing; on confirmation exactly the custom courses with other codes remain, in order and each as often as before, and the history is the code forgotten; electives are untouched |
| History.DeletedElectiveIsUnknown | js/app.js:678-683 | after deleting an elective whose code nothing else defines, the course reports unknown |
| Decimal.Text | js/app.js:213 | `String(n)` is a non-empty digit string, one digit exactly when n < 10, with no leading zero (it starts with '0' only for "0") |
| Decimal.ValueOfText | js/app.js:213 | reading back `String(n)` gives n |
| Decimal.Pad2 | js/app.js:303 | `padStart(2, '0')` gives a digit string of length at least 2 (exactly 2 below 100) that reads back as n |
| Schedule.Split | js/app.js:310 | `split(':')` yields at least one piece and no piece holds the separator |
| Schedule.JoinSplit | js/app.js:310 | joining the pieces of a split gives the original text back |
| Schedule.SplitJoin | js/app.js:310 | splitting separator-free pieces after joining them gives the pieces back |
| Schedule.ToNumber | js/app.js:310 | `Number` gives a value exactly for digit strings |
| Schedule.TimeToMinutes | js/app.js:309-312 | the minutes are defined (not NaN) iff there are at least two pieces and the first two are digit strings, and are then non-negative |
| Schedule.HourMinuteReadsBack | js/app.js:301-311 | a padded "HH:MM" text reads back as hours times 60 plus minutes |
| Schedule.FormatMinutesReadsBack | js/app.js:301-303 | a row label reads back as the minute it was printed from, and has five characters within the day |
| Schedule.GenerateTimeSlots | js/app.js:296-307 | no rows unless start reads before end; otherwise one row per started hour before the end, row i labelled with start plus 60·i minutes |
| Schedule.Rows | js/app.js:300-305 | the loop emits exactly RowCount labels, each for a minute before the end |
| Schedule.Overlaps | js/app.js:488-493 | two classes conflict only on the same day and only when all four times are readable (a NaN time never conflicts) |
| Schedule.OverlapsSymmetric | js/app.js:488-493 | the conflict test is symmetric for every pair of classes, whatever their times |
| Schedule.OverlapMeansSharedMinute | js/app.js:487-493 | for well-ordered classes, the conflict test holds iff they share a day and a minute |
| Schedule.SaveScheduleItem | js/app.js:482-497 | refused for missing fields iff day, start or end is empty; refused for order iff both times read and end is not after start; declined iff it conflicts and the overlap is not confirmed; else appended at the end |
| Schedule.UnconfirmedSavesKeepConflictFree | js/app.js:487-497 | without confirmations a conflict-free timetable stays conflict-free |
| Schedule.UnreadableEndPassesOrderCheck | js/app.js:483-485 | an end time that reads as NaN is not caught by the order check |
| Progress.Tally | js/progress-tracker.js:179-190 | the total is the course count, and approved, current and seen together never exceed it |
| Progress.CalculateSemesterStats | js/progress-tracker.js:171-203 | the loop's counters equal the tally over the semester's courses |
| Progress.TallyAppend | js/progress-tracker.js:179-190 | the counters of two course lists in a row are the sums of each list's counters |
| Progress.AllApprovedIff | js/progress-tracker.js:179-190 | every course is approved iff every course code is completed |
| Progress.CreditsBounded | js/progress-tracker.js:179-190 | with non-negative credits, approved credits lie between 0 and the semester's credits |
| Progress.Pending | js/progress-tracker.js:218-221 | the pending list is the order-preserving subsequence of courses neither completed nor current, each as often as the semester lists it |
| Progress.PendingMatchesStats | js/progress-tracker.js:218-221 | the pending count is the total minus approved minus current, and covers the seen count |
| Progress.CalculateStats | js/progress-tracker.js:104-166 | the totals are the semester, English and elective parts added, with the sizes of the current and seen lists |
| Progress.SemesterTotals | js/progress-tracker.js:110-120 | the semester loop gives the tally over all semester courses |
| Progress.AddCourses | js/progress-tracker.js:111-119 | the course loop continues the running tally by the semester's courses |
| Progress.SemesterPartAddsSemesterStats | js/progress-tracker.js:110-120 | the overall semester part grows by exactly each semester's own statistics |
| Progress.EnglishTotals | js/progress-tracker.js:123-133 | every level counts at the per-level credits; approved are the completed levels |
| Progress.ElectiveTotals | js/progress-tracker.js:136-153 | the quotas give courses and credits; each completed `EC-`/`EP-` code counts one approved elective of its kind |
| Progress.ApprovedWithinCurriculum | js/progress-tracker.js:110-133 | the semester and English parts never count more approved courses than courses |
| Progress.ElectivesNotCapped | js/progress-tracker.js:144-152 | approved electives are not capped at the quota: two `EC-` codes against a quota of one count two |
| Progress.GetProgressClass | js/progress-tracker.js:309-315 | each band holds iff the percentage is in its range; exactly 100 is complete, above 100 is high, NaN is minimal |
| Progress.ProgressClassMonotone | js/progress-tracker.js:309-315 | up to 100, a larger percentage never gets a lower band |
| PersonalGrid.InitializePersonalGrid | js/personal-grid.js:87-95 | the grid's keys are exactly the semester numbers |
| PersonalGrid.InitialGridContents | js/personal-grid.js:90-92 | a semester number holds the codes of the last semester carrying it, in catalog order |
| PersonalGrid.InitialGridFollowsCurriculum | js/personal-grid.js:87-95 | with distinct numbers every semester's codes are placed under its own number |
| PersonalGrid.GridToRender | js/personal-grid.js:13-15 | a stored non-empty grid is kept; a missing or empty one is rebuilt from the curriculum |
| PersonalGrid.MoveCourse | js/personal-grid.js:126-136 | the grid gains the target semester and loses no semester |
| PersonalGrid.MoveLeavesOneCopy | js/personal-grid.js:126-136 | after a move the code is in the grid once: last in the target semester |
| PersonalGrid.MoveKeepsOthers | js/personal-grid.js:126-136 | every semester keeps its other codes in the same order |
| PersonalGrid.MoveIdempotent | js/personal-grid.js:126-136 | moving a course to the same semester twice equals moving it once |
| PersonalGrid.MoveLastWins | js/personal-grid.js:126-136 | of two moves only the second places the course; the first leaves only its target semester behind |
| DataManager.FirstError | js/data-manager.js:33-43 | `forEach` with a throwing check ends with no error iff every item passes, else with the first failing item's error |
| DataManager.ValidateMallaData | js/data-manager.js:26-46 | success returns the data itself; a falsy `carrera` fails first; a missing or non-array `semesters` fails next |
| DataManager.CourseErrorIff | js/data-manager.js:38-42 | a course passes iff it is an object with truthy code, name and credits |
| DataManager.SemesterErrorIff | js/data-manager.js:33-43 | a semester passes iff it has a truthy number and an array of passing courses |
| DataManager.ValidateAcceptsWellFormed | js/data-manager.js:26-46 | validation accepts exactly the well-formed curricula |
| DataManager.ZeroCreditCourseRejected | js/data-manager.js:39-41 | a course worth 0 credits is rejected, since 0 is falsy |
| DataManager.ImportUserData | js/data-manager.js:91-104 | the import succeeds iff `completedCourses` is an array and the storage accepts the write; on success the data is stored unchanged, otherwise nothing |
| DataManager.ImportChecksOnlyTheList | js/data-manager.js:94-96 | the entries of `completedCourses` are not examined; a non-array value is refused |

## Left out

- Rendering: the DOM, course cards' markup, toasts, modals, tab switching, drag-and-drop events and theme colours. These are presentation only.
- Persistence: `saveState`, `loadUserData`, the `localStorage` keys and `renderAll`. Whether a write succeeds is a parameter of `DataManager.ImportUserData`.
- Network loading (`loadCarrera`, `loadHorarios`, `listCarreras`) and `exportUserData`. They are asynchronous I/O with no decision logic.
- auth.js is not part of this model.
- Percentages: `Math.round` of a float division. Floating point is not modelled, so `Progress.GetProgressClass` takes the rounded percentage (or NaN) as its input.
- The course `type` field ('BG' for English levels) and the class `color` and `opacity` of the timetable. They are display attributes.
- The collection of the class fields from the form in `saveScheduleItem`, including the catalog-or-custom course switch. `Schedule.SaveScheduleItem` starts from the collected item.
- `renderElectivasProgress`, `renderInglesProgress`, the semester cards' markup and the personal grid's `findCourse` lookup. They render values computed elsewhere.
- Schedule.ToNumber: reads only digit strings. Signs, spaces, decimals, hexadecimal and exponents read as NaN here, unlike `Number`. Times come from "HH:MM" inputs, so this does not arise in practice.
- History.AllCourses: requires the curriculum to carry its English track. The source throws a TypeError without one.
- History.DeleteCustomCourse: takes the custom list as present. The source's `filter` on a missing list throws.
- PersonalGrid.Grid: keys are integers. The source's object keys are their decimal text, which is one-to-one on the semester numbers used.
- DataManager.Json: numbers are reals. JSON has no NaN or infinities, so truthiness of a number is "not zero".
- Co-requisite issues carry only the failing code. The fixed reason text of each issue is left implicit.
- Catalog.Snapshot: the three history lists are taken as present arrays of strings. The source guarantees neither: an import checks only that `completedCourses` is an array, and `loadUserData` fills in a default only for `electivas`. From such a stored state the source throws where the model returns a result. `calculateStats` calls `code.startsWith('EC-')` on a non-string completed entry when the curriculum has electives (js/progress-tracker.js:144-145). `getCourseStatus` calls `state.currentCourses.includes` on a missing list (js/prerequisite-engine.js:227).
- JSON shapes outside the course types: a `null` prerequisite or co-requisite entry (the source throws a TypeError reading its fields), a numeric entry (the source calls it invalid), a non-string `requirement` (the source falls to the "Requiere" default), a string where `prereq`, `options` or `coreq` expects an array (the source iterates its characters) and a non-iterable object there (the source throws). The model's prerequisites are strings or objects with string fields and an `options` array.
- Cycles among prerequisites are not detected by the source. The model's prerequisite expressions are finite trees, and the engine never follows a code to its course.
