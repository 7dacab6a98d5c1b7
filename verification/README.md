# Agile planner buddy: the planning core in Dafny

The model covers the planning core of agile-planner-buddy, a browser app. A user answers a short questionnaire about a project and its team. The app then keeps the project in a list, breaks its objectives down into epics, stories, tasks and subtasks, and ranks four delivery methodologies for the team.

| module | models |
|---|---|
| `Domain` (`domain.dfy`) | the record types, the two question catalogues and JavaScript's truthiness, made explicit |
| `Registry` (`registry.dfy`) | the hook's project list: create with defaults, toggle completion, delete by id, look up by id |
| `Structure` (`structure.dfy`) | the work-breakdown generator: fixed title catalogues and bounded random counts and points |
| `Methodology` (`methodology.dfy`) | the four clamped suitability scores and the stable descending ranking |
| `Wizard` (`wizard.dfy`) | the intake form as a state machine: five project questions, three questions per member, required-answer checks, Back, objective editing, skip |
| `Dashboard` (`dashboard.dfy`) | the all / active / completed filter |

Modelling decisions:
- **Functional style.** Everything is a pure function over immutable values. The project list is an explicit value that each registry operation takes and returns.
- **Handlers as atomic transitions.** Each form handler is one transition `(state, event) -> state`. A handler that finishes the form also returns the draft it hands to the registry.
- **Randomness as an oracle.** `Math.random` becomes an `Oracle` parameter. The oracle gives a natural number for each draw site, keyed by the indices of the item being built. `Math.floor(Math.random() * k) + c` is then `c + roll % k`. The coin `Math.random() > 0.5` is an odd roll. Generated identifiers are opaque strings taken from the oracle or passed in.
- **Optional fields.** `Partial<ProjectDetails>` is `ProjectDraft`, with an `Option` per field. A text is truthy when present and non-empty, and a number when present and non-zero. Arrays are always truthy once present.
- **Members as the form stores them.** The form casts its partial member draft to a member when it commits it. So a stored `TeamMember` keeps optional answers, and the wizard invariant proves that every committed member is complete.
- **Sorting.** `Array.prototype.sort` is stable. The ranking therefore keeps the catalogue order Agile, Scrum, Kanban, Waterfall among equal scores, and the model proves that.

## Model

| member | source | states |
|---|---|---|
| Domain.SizeOrOne | src/hooks/useProjectPlanner.tsx:111 | the team size when it is truthy and 1 when it is absent or zero, so never zero |
| Registry.NewProject | src/hooks/useProjectPlanner.tsx:105-117 | each falsy field takes its default: "Untitled Project", "", [], 1, [], "". Each given field is kept. The id is the fresh one, `currentQuestion` is 0 and `completed` is false |
| Registry.Create | src/hooks/useProjectPlanner.tsx:119 | appends exactly one entry at the end. Earlier entries are unchanged and keep their order |
| Registry.Find | src/hooks/useProjectPlanner.tsx:134 | finds an entry exactly when some entry has the id, and then returns the first such entry |
| Registry.Toggle | src/hooks/useProjectPlanner.tsx:125-132 | keeps the length. At every position only `completed` may change, and it changes exactly when the entry's id matches |
| Registry.Delete | src/hooks/useProjectPlanner.tsx:144-146 | keeps exactly the entries whose id differs. The length drops by the number of matching entries |
| Registry.ToggleUnknownId | src/hooks/useProjectPlanner.tsx:127-131 | toggling an id no entry carries leaves the list unchanged |
| Registry.ToggleTwice | src/hooks/useProjectPlanner.tsx:125-132 | toggling the same id twice gives back the original list |
| Registry.FindAfterToggle | src/hooks/useProjectPlanner.tsx:125-134 | after a toggle, a look-up returns the same entry as before, flipped if its id was toggled |
| Registry.DeleteUnknownId | src/hooks/useProjectPlanner.tsx:145 | deleting an id no entry carries leaves the list unchanged |
| Registry.DeleteIdempotent | src/hooks/useProjectPlanner.tsx:144-146 | deleting the same id twice equals deleting it once |
| Registry.DeleteConcat | src/hooks/useProjectPlanner.tsx:145 | deletion distributes over concatenation, so the survivors keep their relative order |
| Registry.CreateThenDelete | src/hooks/useProjectPlanner.tsx:105-146 | creating under a fresh id and then deleting that id restores the list |
| Registry.FindCreated | src/hooks/useProjectPlanner.tsx:105-122 | after creating under a fresh id, a look-up of that id returns the new project |
| Dashboard.KeepWhere | src/pages/Dashboard.tsx:19-20 | keeps exactly the entries with the given `completed` flag, and never grows the list |
| Dashboard.FilterProjects | src/pages/Dashboard.tsx:16-20 | `all` returns the list itself. `active` keeps exactly the entries not completed, and `completed` exactly the completed ones |
| Dashboard.FilterConcat | src/pages/Dashboard.tsx:16-20 | filtering distributes over concatenation, so the kept entries stay in their original order |
| Dashboard.KeepConcat | src/pages/Dashboard.tsx:19-20 | the same distribution law for one status |
| Dashboard.ActiveCompletedPartition | src/pages/Dashboard.tsx:18-20 | the active and completed views have no entry in common, and their lengths add up to the whole list |
| Dashboard.KeepAllMatching | src/pages/Dashboard.tsx:19 | a list already all of the wanted status passes the filter unchanged |
| Structure.StoryTitle | src/hooks/useProjectPlanner.tsx:360-378 | the index `(epic*4+story) mod 12` stays inside the twelve-entry catalogue |
| Structure.TaskTitle | src/hooks/useProjectPlanner.tsx:380-402 | the index `(story*5+task) mod 16` stays inside the sixteen-entry catalogue |
| Structure.SubtaskTitle | src/hooks/useProjectPlanner.tsx:404-422 | the index `(task*3+subtask) mod 12` stays inside the twelve-entry catalogue |
| Structure.Pick | src/hooks/useProjectPlanner.tsx:159 | `floor(random*k)+c` lies in [c, c+k-1], and every value in that range can be drawn |
| Structure.MakeSubtask | src/hooks/useProjectPlanner.tsx:171-177 | a subtask is a leaf with 1 to 3 points and the catalogue title for its position |
| Structure.MakeSubtasks | src/hooks/useProjectPlanner.tsx:169-178 | the subtask list is empty exactly when the coin says so, and otherwise holds 1 to 3 well-formed subtasks |
| Structure.MakeTask | src/hooks/useProjectPlanner.tsx:165-188 | a task has 1 to 5 points, its catalogue title, and 0 to 3 well-formed subtasks |
| Structure.MakeStory | src/hooks/useProjectPlanner.tsx:160-198 | a story has 3 to 10 points, its catalogue title, and 2 to 5 well-formed tasks |
| Structure.MakeEpic | src/hooks/useProjectPlanner.tsx:155-206 | an epic is titled "Epic: " + objective, has no points, and has 2 to 4 well-formed stories |
| Structure.GenerateStructure | src/hooks/useProjectPlanner.tsx:150-210 | an unknown id gives no epics. Otherwise there is one well-formed epic per objective, in objective order |
| Structure.WellNestedDepth | src/hooks/useProjectPlanner.tsx:25-32 | in a well-nested item every child is one level down, so the tree is at most four levels deep |
| Structure.TaskIsWellNested | src/hooks/useProjectPlanner.tsx:180-187 | a generated task is well nested |
| Structure.StoryIsWellNested | src/hooks/useProjectPlanner.tsx:190-197 | a generated story is well nested |
| Structure.EpicIsWellNested | src/hooks/useProjectPlanner.tsx:200-206 | a generated epic is well nested, and its depth is at most four |
| Structure.StructureIsWellNested | src/hooks/useProjectPlanner.tsx:150-210 | every generated tree is well nested with depth at most four: epic, story, task, subtask |
| Structure.StoryTitlesDistinct | src/hooks/useProjectPlanner.tsx:361-374 | the story catalogue has no repeated title |
| Structure.TaskTitlesDistinct | src/hooks/useProjectPlanner.tsx:381-398 | the task catalogue has no repeated title |
| Structure.SubtaskTitlesDistinct | src/hooks/useProjectPlanner.tsx:405-418 | the subtask catalogue has no repeated title |
| Structure.SiblingStoryTitlesDiffer | src/hooks/useProjectPlanner.tsx:376 | the stories of one epic (at most four) all get different titles |
| Structure.SiblingTaskTitlesDiffer | src/hooks/useProjectPlanner.tsx:400 | the tasks of one story (at most five) all get different titles |
| Structure.SiblingSubtaskTitlesDiffer | src/hooks/useProjectPlanner.tsx:420 | the subtasks of one task (at most three) all get different titles |
| Structure.StoryTitlePeriod | src/hooks/useProjectPlanner.tsx:376 | story titles repeat every three epics |
| Methodology.Clamp | src/hooks/useProjectPlanner.tsx:310 | `min(max(score, 0), 100)`: in-range scores are kept, below 0 gives 0, above 100 gives 100 |
| Methodology.CountExperience | src/hooks/useProjectPlanner.tsx:303 | the number of members at one experience level is at most the team's length |
| Methodology.CountAvailability | src/hooks/useProjectPlanner.tsx:307 | the number of members with one availability is at most the team's length |
| Methodology.AgileScore | src/hooks/useProjectPlanner.tsx:294-311 | the Agile score lies in [0, 100] |
| Methodology.ScrumScore | src/hooks/useProjectPlanner.tsx:313-326 | the Scrum score lies in [55, 100] |
| Methodology.KanbanScore | src/hooks/useProjectPlanner.tsx:328-340 | the Kanban score lies in [65, 100] |
| Methodology.WaterfallScore | src/hooks/useProjectPlanner.tsx:342-354 | the Waterfall score lies in [50, 100] |
| Methodology.Catalogue | src/hooks/useProjectPlanner.tsx:225-289 | four entries in the order Agile, Scrum, Kanban, Waterfall, each with a score in [0, 100] |
| Methodology.Insert | src/hooks/useProjectPlanner.tsx:290 | inserting adds exactly the one entry, as a multiset |
| Methodology.InsertSorted | src/hooks/useProjectPlanner.tsx:290 | inserting into a descending list keeps it descending |
| Methodology.SortBySuitability | src/hooks/useProjectPlanner.tsx:290 | the sort is a permutation of its input, ordered by descending suitability |
| Methodology.InsertKeepsTieOrder | src/hooks/useProjectPlanner.tsx:290 | inserting an entry that comes first in the catalogue keeps equal scores in catalogue order |
| Methodology.SortKeepsTieOrder | src/hooks/useProjectPlanner.tsx:290 | the sort is stable: equal scores stay in catalogue order |
| Methodology.Recommend | src/hooks/useProjectPlanner.tsx:217-290 | four entries, a permutation of the scored catalogue, sorted by descending suitability |
| Methodology.Recommendations | src/hooks/useProjectPlanner.tsx:213-291 | an unknown id gives no entries. Otherwise the entries are exactly that project's four methodology scores, in descending order |
| Methodology.RecommendIsRanking | src/hooks/useProjectPlanner.tsx:225-290 | each of agile, scrum, kanban and waterfall appears exactly once, each score is in [0, 100], and ties follow catalogue order |
| Methodology.RecommendationsAreRanking | src/hooks/useProjectPlanner.tsx:213-291 | for a stored id the recommendations are that project's ranking: every methodology once, scores in [0, 100], and ties in catalogue order |
| Methodology.SortedCatalogueIsRanking | src/hooks/useProjectPlanner.tsx:290 | sorting any catalogue-ordered list of four keeps every id exactly once and orders ties by catalogue position |
| Methodology.CountExperienceAppend | src/hooks/useProjectPlanner.tsx:303 | adding a member raises one experience count by one and leaves the others alone |
| Methodology.CountAvailabilityAppend | src/hooks/useProjectPlanner.tsx:307 | adding a member raises one availability count by one and leaves the others alone |
| Methodology.AddingMember | src/hooks/useProjectPlanner.tsx:294-354 | adding a member never lowers the Scrum, Kanban or Waterfall score. A non-contractor senior never lowers Agile, and a non-senior contractor never raises it |
| Methodology.RankingDependsOnTeamOnly | src/hooks/useProjectPlanner.tsx:294-354 | the ranking depends only on team size and team members, not on name, objectives or timeline |
| Methodology.RecommendationsIgnoreToggle | src/hooks/useProjectPlanner.tsx:213-223 | marking projects complete or active never changes any project's ranking |
| Methodology.SixPersonTeamRanking | src/hooks/useProjectPlanner.tsx:213-354 | six full-time members (three senior, two mid-level, one junior) rank as Scrum 97, Agile 81, Kanban 65, Waterfall 52 |
| Wizard.TrimStart | src/components/ProjectForm.tsx:90 | removes the leading white-space run and nothing more: the result is a suffix, the removed prefix is blank, the result is empty exactly for blank text, and it does not start with white space |
| Wizard.TrimEnd | src/components/ProjectForm.tsx:90 | removes the trailing white-space run and nothing more: the result is a prefix, the removed suffix is blank, the result is empty exactly for blank text, and it does not end with white space |
| Wizard.LeadLength | src/components/ProjectForm.tsx:90 | the length of the leading white-space run: that prefix is blank and the next character, if any, is not white space |
| Wizard.Trim | src/components/ProjectForm.tsx:90 | `trim()` is the infix of the text that starts after the leading white-space run and leaves only blank text behind it. It is empty exactly for blank text, and otherwise neither starts nor ends with white space |
| Wizard.Answered | src/components/ProjectForm.tsx:86-95 | definition: the check on a project question. Objectives need every entry non-blank after trimming, with an absent list read as `['']`. Every other field needs a truthy value |
| Wizard.MemberAnswered | src/components/ProjectForm.tsx:114-118 | definition: the check on a member question, a truthy value in that field |
| Wizard.FreshMember | src/components/ProjectForm.tsx:33-40 | the member draft a new member starts from keeps the given id and has no question answered |
| Wizard.Enabled | src/components/ProjectForm.tsx:185-344 | definition: the events the rendered form can raise. Text, number and objective edits reach only the question on screen, and member answers reach only the member question on screen. Objective edits and removals name an existing entry. Skip is offered only before the team questions |
| Wizard.Initial | src/components/ProjectForm.tsx:15-27 | step 0 in the project phase, objectives `['']`, team size 1, no members, member index and team step 0. The state satisfies the invariant |
| Wizard.ProjectNext | src/components/ProjectForm.tsx:83-103 | an unanswered question changes nothing. An answered one moves to the next question, or from the last one into the team phase with a fresh member draft, changing nothing else. The step never exceeds 4 and the draft is untouched |
| Wizard.ProjectBack | src/components/ProjectForm.tsx:105-109 | moves one question back and changes nothing else. It does nothing at the first question |
| Wizard.Commit | src/components/ProjectForm.tsx:124-125 | writes the member at its index (overwriting or appending) and leaves every other index unchanged |
| Wizard.TeamNext | src/components/ProjectForm.tsx:111-141 | an unanswered question changes nothing, and the first two answers only advance. The last answer commits the member at its index. It then finishes exactly when the index reaches team size minus one, submitting the committed draft, or else moves to the next member with a fresh draft |
| Wizard.TeamNextAsWritten | src/components/ProjectForm.tsx:127-134 | as the form runs it: the same next state as `TeamNext`, but the submitted draft is the one from before the commit |
| Wizard.TeamBack | src/components/ProjectForm.tsx:143-160 | moves one question back and changes nothing else. From a member's first question it returns to the previous member's last question, reloading that member if it was committed. From the first member it leaves the team phase at project step 4. Every other field is kept |
| Wizard.Next | src/components/ProjectForm.tsx:309-317 | the form's submit dispatches on the phase; the project phase never submits a draft |
| Wizard.Back | src/components/ProjectForm.tsx:324-332 | the Back button dispatches on the phase and never changes the draft |
| Wizard.InputChange | src/components/ProjectForm.tsx:42-47 | sets exactly the edited field and nothing else. An edited team size is always truthy |
| Wizard.TeamSizeFromInput | src/components/ProjectForm.tsx:229 | the parsed number, or 1 when it is falsy: a NaN or zero reading becomes 1, and any other number is kept |
| Wizard.ChangeObjective | src/components/ProjectForm.tsx:49-56 | replaces only the entry at the index and keeps the length. An absent list reads as `['']` |
| Wizard.AddObjective | src/components/ProjectForm.tsx:58-63 | appends one empty entry and keeps the others |
| Wizard.SpliceStart | src/components/ProjectForm.tsx:69 | `splice`'s start index is clamped into the list, and an in-range index is kept |
| Wizard.RemoveObjective | src/components/ProjectForm.tsx:65-74 | does nothing while at most one entry is left. Otherwise it deletes exactly the entry at the index and shifts the rest, so the list is never emptied |
| Wizard.MemberChange | src/components/ProjectForm.tsx:76-81 | stores exactly the chosen value in the answered field and keeps the other two fields and the id. That question counts as answered unless the role is empty |
| Wizard.Placeholders | src/components/ProjectForm.tsx:174-179 | one stand-in member per seat (none for a non-positive count), each complete: "Team Member", mid-level, full-time |
| Wizard.Skip | src/components/ProjectForm.tsx:168-183 | does nothing without a name. Otherwise it submits the draft, adding stand-in members only when the member list is absent |
| Wizard.Step | src/components/ProjectForm.tsx:309-344 | only Next and Skip can submit a draft, and Skip never changes the form state |
| Wizard.ProjectNextPreservesValid | src/components/ProjectForm.tsx:83-103 | a project-phase Next keeps the invariant |
| Wizard.TeamNextPreservesValid | src/components/ProjectForm.tsx:111-141 | a team-phase Next keeps the invariant: a committed member has all three answers |
| Wizard.BackPreservesValid | src/components/ProjectForm.tsx:143-160 | Back keeps the invariant, including a reloaded member having all its answers |
| Wizard.InputPreservesValid | src/components/ProjectForm.tsx:42-47 | editing the question on screen keeps earlier answers given |
| Wizard.ObjectiveEditPreservesValid | src/components/ProjectForm.tsx:49-74 | objective edits keep the list non-empty and leave earlier answers given |
| Wizard.MemberInputPreservesValid | src/components/ProjectForm.tsx:76-81 | answering the member question on screen keeps earlier member answers given |
| Wizard.StepPreservesValid | src/components/ProjectForm.tsx:309-344 | every event the form can raise keeps the invariant |
| Wizard.RunPreservesValid | src/components/ProjectForm.tsx:309-344 | any sequence of events from a valid state ends in a valid state |
| Wizard.ReachableIsValid | src/components/ProjectForm.tsx:15-27 | every state reachable from the initial form satisfies the invariant |
| Wizard.SubmissionIsSubmittable | src/components/ProjectForm.tsx:132-134 | only the last member question finishes the form. The draft it submits has every question answered, every member complete, the just-answered member at its index, and at least team-size members |
| Wizard.SubmittedProjectKeepsAnswers | src/hooks/useProjectPlanner.tsx:105-117 | a project created from a submitted draft keeps every answer with no default substituted. Its objectives are non-blank and it has at least team-size members |
| Wizard.ProjectNextGuard | src/components/ProjectForm.tsx:86-95 | a project-phase Next changes nothing exactly when the question on screen is unanswered |
| Wizard.TeamNextGuard | src/components/ProjectForm.tsx:114-118 | a team-phase Next changes nothing and submits nothing exactly when the member question on screen is unanswered |
| Wizard.ProjectNextThenBack | src/components/ProjectForm.tsx:97-109 | Back undoes a successful Next between project questions |
| Wizard.EnterTeamThenBack | src/components/ProjectForm.tsx:156-160 | Back from the first member question returns to the last project question with the draft intact |
| Wizard.TeamNextThenBack | src/components/ProjectForm.tsx:143-145 | Back undoes a successful Next within one member's questions |
| Wizard.CommitThenBack | src/components/ProjectForm.tsx:146-155 | moving on to the next member and pressing Back restores the member just committed, on its last question |
| Wizard.AsWrittenFinishDropsMember | src/components/ProjectForm.tsx:163-166 | as written, finishing submits the draft from before the commit. On a first pass its team is one member short of the corrected submission |
| Wizard.AsWrittenFinishExample | src/components/ProjectForm.tsx:124-134 | a concrete session reachable from the initial form: a team of one, fully answered, is created with no member, while the corrected handler submits the member |
| Wizard.SkipFromReachable | src/components/ProjectForm.tsx:170-174 | from any reachable state, skip submits the draft unchanged or nothing: stand-in members are never generated |
| Wizard.SkipWithoutTeam | src/components/ProjectForm.tsx:172-180 | a named draft without a member list becomes a project with one complete stand-in member per requested seat |

## Left out

- Randomness and identifiers: `Math.random` and `generateId`'s base-36 strings are not modelled. Counts, points and the subtask coin come from the `Oracle` parameter, and identifiers are opaque strings passed in.
- `createdAt: new Date()` is not modelled, since it is a clock read.
- Toasts, `navigate` and the per-call `useState` instance of the hook are left out. The project list is one explicit value.
- React scheduling: every handler is one atomic transition. The one place where scheduling changes the outcome is the stale draft in `finalizeProject`, which is modelled as written and corrected (see Findings).
- The member-reset effect in the form is folded into the transitions that trigger it. Its random identifier is a parameter.
- `progressPercentage` and the question prompts, placeholders and option labels are presentation, and use floating point.
- The browser's `min={1}` check on the team-size input is not modelled. The handler accepts any non-zero number, and so does the model.
- `objective.toLowerCase()` in epic descriptions is Unicode case mapping. It is the parameter `lower`.
- NaN is not modelled. `TeamSizeFromInput` takes `None` for an unparsable reading.
- Wizard.ChangeObjective: requires an index below the list length. The form only edits entries it renders, and an index past the end would grow a sparse array, which the model does not represent.
- Experience and availability answers are enumerations, since the form offers them only through selects with fixed options.
- Presentation-only files (showcase, cards, animations, routing, header, pages other than the dashboard filter) are not part of this model.

## Findings

| source | as written | input that shows it | evidently intended | confidence | as-written member | corrected member |
|---|---|---|---|---|---|---|
| src/components/ProjectForm.tsx:127-134 | after the last member question, the member is written to the next render's draft, but `finalizeProject` reads the draft of the current render, so the submitted team lacks that member | team size 1; answer name, description, one objective, timeline, then the one member's role, experience and availability; press Finish: the project is created with no team members | submit the draft with the member committed | not executed | Wizard.AsWrittenFinishExample | Wizard.SubmissionIsSubmittable |
