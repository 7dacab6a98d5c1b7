/** The work-breakdown generator: every objective of a project becomes an
    epic, with randomly many stories, tasks and subtasks below it.

    Randomness is an oracle. Each call of `Math.random()` in the source is a
    draw identified by its call site and by the index path of the item it
    belongs to (epic, story, task, subtask indices), and the oracle answers
    every draw with a natural number. `floor(random() * k) + c` becomes
    `c + roll % k`, an integer in [c, c+k-1]; `random() > 0.5` becomes an
    odd roll. Identifiers are opaque tokens from the same oracle. */
module Structure {
  import opened Domain
  import Registry

  const StoryTitles: seq<string> := [
    "As a user, I want to view my dashboard",
    "As a user, I want to update my profile",
    "As a user, I want to manage my settings",
    "As a user, I want to track my progress",
    "As a user, I want to see notifications",
    "As a user, I want to filter search results",
    "As a user, I want to share content",
    "As a user, I want to customize my experience",
    "As a user, I want to export my data",
    "As a user, I want to connect with others",
    "As a user, I want to view analytics",
    "As a user, I want to manage permissions"
  ]

  const TaskTitles: seq<string> := [
    "Design UI mockups",
    "Implement frontend component",
    "Create API endpoint",
    "Write unit tests",
    "Update documentation",
    "Perform code review",
    "Optimize database query",
    "Add validation",
    "Fix accessibility issues",
    "Implement responsive design",
    "Add loading states",
    "Create error handling",
    "Update navigation flow",
    "Add user feedback mechanism",
    "Implement data caching",
    "Add search functionality"
  ]

  const SubtaskTitles: seq<string> := [
    "Add input sanitization",
    "Implement error states",
    "Create help documentation",
    "Update icons",
    "Fix edge case handling",
    "Add keyboard shortcuts",
    "Update color scheme",
    "Implement dark mode support",
    "Add localization support",
    "Optimize image loading",
    "Add analytics tracking",
    "Implement caching strategy"
  ]

  /** Title of story `storyIndex` of epic `epicIndex`, rotating through the
      catalogue four entries per epic. */
  function StoryTitle(epicIndex: nat, storyIndex: nat): (t: string)
    ensures t in StoryTitles
  {
    StoryTitles[(epicIndex * 4 + storyIndex) % |StoryTitles|]
  }

  /** Title of task `taskIndex` of story `storyIndex`, five entries per story. */
  function TaskTitle(storyIndex: nat, taskIndex: nat): (t: string)
    ensures t in TaskTitles
  {
    TaskTitles[(storyIndex * 5 + taskIndex) % |TaskTitles|]
  }

  /** Title of subtask `subtaskIndex` of task `taskIndex`, three per task. */
  function SubtaskTitle(taskIndex: nat, subtaskIndex: nat): (t: string)
    ensures t in SubtaskTitles
  {
    SubtaskTitles[(taskIndex * 3 + subtaskIndex) % |SubtaskTitles|]
  }

  /** The call sites of `Math.random()`, each with the index path of the item
      it serves. */
  datatype Draw =
    | ItemId(path: seq<nat>)
    | ItemCount(path: seq<nat>)
    | ItemPoints(path: seq<nat>)
    | SubtaskCoin(path: seq<nat>)

  datatype Oracle = Oracle(roll: Draw -> nat, token: Draw -> string)

  /** `Math.floor(Math.random() * span) + low`. */
  function Pick(o: Oracle, d: Draw, span: nat, low: int): (r: int)
    requires span > 0
    ensures low <= r < low + span
    ensures o.roll(d) < span ==> r == low + o.roll(d)
  {
    low + o.roll(d) % span
  }

  /** A subtask as generated at task `t`, position `u`. */
  predicate SubtaskShaped(w: WorkItem, t: nat, u: nat) {
    && w.kind == Subtask
    && w.children.Absent?
    && w.storyPoints.Some? && 1 <= w.storyPoints.value <= 3
    && w.title == SubtaskTitle(t, u)
  }

  /** A task as generated at story `s`, position `t`: no subtasks or one to
      three of them. */
  predicate TaskShaped(w: WorkItem, s: nat, t: nat) {
    && w.kind == Task
    && w.storyPoints.Some? && 1 <= w.storyPoints.value <= 5
    && w.title == TaskTitle(s, t)
    && w.children.Present?
    && |w.children.items| <= 3
    && forall u :: 0 <= u < |w.children.items| ==> SubtaskShaped(w.children.items[u], t, u)
  }

  /** A story as generated in epic `e`, position `s`: two to five tasks. */
  predicate StoryShaped(w: WorkItem, e: nat, s: nat) {
    && w.kind == Story
    && w.storyPoints.Some? && 3 <= w.storyPoints.value <= 10
    && w.title == StoryTitle(e, s)
    && w.children.Present?
    && 2 <= |w.children.items| <= 5
    && forall t :: 0 <= t < |w.children.items| ==> TaskShaped(w.children.items[t], s, t)
  }

  /** An epic as generated for objective `objective` at position `e`: no
      story points and two to four stories. */
  predicate EpicShaped(w: WorkItem, e: nat, objective: string) {
    && w.kind == Epic
    && w.storyPoints.None?
    && w.title == "Epic: " + objective
    && w.children.Present?
    && 2 <= |w.children.items| <= 4
    && forall s :: 0 <= s < |w.children.items| ==> StoryShaped(w.children.items[s], e, s)
  }

  function MakeSubtask(o: Oracle, objective: string, e: nat, s: nat, t: nat, u: nat): (w: WorkItem)
    ensures SubtaskShaped(w, t, u)
  {
    WorkItem(
      o.token(ItemId([e, s, t, u])),
      SubtaskTitle(t, u),
      "Subtask related to " + objective,
      Some(Pick(o, ItemPoints([e, s, t, u]), 3, 1)),
      Absent,
      Subtask)
  }

  /** The subtasks of a task: none on an even coin, else one to three. */
  function MakeSubtasks(o: Oracle, objective: string, e: nat, s: nat, t: nat): (r: seq<WorkItem>)
    ensures o.roll(SubtaskCoin([e, s, t])) % 2 == 0 <==> r == []
    ensures |r| <= 3
    ensures forall u :: 0 <= u < |r| ==> SubtaskShaped(r[u], t, u)
  {
    if o.roll(SubtaskCoin([e, s, t])) % 2 == 1 then
      seq(Pick(o, ItemCount([e, s, t]), 3, 1), u requires u >= 0 => MakeSubtask(o, objective, e, s, t, u))
    else
      []
  }

  function MakeTask(o: Oracle, objective: string, e: nat, s: nat, t: nat): (w: WorkItem)
    ensures TaskShaped(w, s, t)
  {
    WorkItem(
      o.token(ItemId([e, s, t])),
      TaskTitle(s, t),
      "Task related to " + objective,
      Some(Pick(o, ItemPoints([e, s, t]), 5, 1)),
      Present(MakeSubtasks(o, objective, e, s, t)),
      Task)
  }

  function MakeStory(o: Oracle, objective: string, e: nat, s: nat): (w: WorkItem)
    ensures StoryShaped(w, e, s)
  {
    var count := Pick(o, ItemCount([e, s]), 4, 2);
    WorkItem(
      o.token(ItemId([e, s])),
      StoryTitle(e, s),
      "User story related to " + objective,
      Some(Pick(o, ItemPoints([e, s]), 8, 3)),
      Present(seq(count, t requires t >= 0 => MakeTask(o, objective, e, s, t))),
      Story)
  }

  /** The epic for objective number `e`; `lower` is the host's lower-casing. */
  function MakeEpic(o: Oracle, lower: string -> string, objective: string, e: nat): (w: WorkItem)
    ensures EpicShaped(w, e, objective)
  {
    var count := Pick(o, ItemCount([e]), 3, 2);
    WorkItem(
      o.token(ItemId([e])),
      "Epic: " + objective,
      "This epic focuses on " + lower(objective),
      None,
      Present(seq(count, s requires s >= 0 => MakeStory(o, objective, e, s))),
      Epic)
  }

  /** `generateProjectStructure`: one epic per objective of the project with
      the given id, in order; nothing for an unknown id. */
  function GenerateStructure(ps: seq<Project>, id: string, o: Oracle, lower: string -> string): (r: seq<WorkItem>)
    ensures !Registry.HasId(ps, id) ==> r == []
    ensures Registry.HasId(ps, id) ==>
              var objectives := Registry.Find(ps, id).value.objectives;
              && |r| == |objectives|
              && forall e :: 0 <= e < |r| ==> EpicShaped(r[e], e, objectives[e])
  {
    match Registry.Find(ps, id)
    case None => []
    case Some(p) => seq(|p.objectives|, e requires 0 <= e < |p.objectives| => MakeEpic(o, lower, p.objectives[e], e))
  }

  // ---------------------------------------------------------------------
  // The generic hierarchy: levels, nesting and depth.

  function Level(k: WorkKind): nat {
    match k
    case Epic => 0
    case Story => 1
    case Task => 2
    case Subtask => 3
  }

  /** Every child sits exactly one level below its parent, only epics lack
      story points, and subtasks are leaves. */
  predicate WellNested(w: WorkItem)
    decreases w
  {
    && (w.storyPoints.None? <==> w.kind == Epic)
    && (w.kind == Subtask ==> w.children.Absent?)
    && (w.children.Present? ==>
          forall c :: c in w.children.items ==> Level(c.kind) == Level(w.kind) + 1 && WellNested(c))
  }

  /** The tree rooted at `w` has at most `n` levels. */
  predicate DepthAtMost(w: WorkItem, n: nat)
    decreases w
  {
    && n >= 1
    && (w.children.Present? ==> forall c :: c in w.children.items ==> DepthAtMost(c, n - 1))
  }

  lemma {:induction false} WellNestedDepth(w: WorkItem)
    requires WellNested(w)
    ensures DepthAtMost(w, 4 - Level(w.kind))
    decreases w
  {
    if w.children.Present? {
      forall c | c in w.children.items ensures DepthAtMost(c, 4 - Level(w.kind) - 1) {
        WellNestedDepth(c);
      }
    }
  }

  lemma TaskIsWellNested(w: WorkItem, s: nat, t: nat)
    requires TaskShaped(w, s, t)
    ensures WellNested(w)
  {
    var cs := w.children.items;
    forall c | c in cs ensures Level(c.kind) == Level(w.kind) + 1 && WellNested(c) {
      var u :| 0 <= u < |cs| && cs[u] == c;
      assert SubtaskShaped(cs[u], t, u);
    }
  }

  lemma StoryIsWellNested(w: WorkItem, e: nat, s: nat)
    requires StoryShaped(w, e, s)
    ensures WellNested(w)
  {
    var cs := w.children.items;
    forall c | c in cs ensures Level(c.kind) == Level(w.kind) + 1 && WellNested(c) {
      var t :| 0 <= t < |cs| && cs[t] == c;
      TaskIsWellNested(c, s, t);
    }
  }

  /** Every generated epic is a well-nested tree of at most four levels. */
  lemma EpicIsWellNested(w: WorkItem, e: nat, objective: string)
    requires EpicShaped(w, e, objective)
    ensures WellNested(w)
    ensures DepthAtMost(w, 4)
  {
    var cs := w.children.items;
    forall c | c in cs ensures Level(c.kind) == Level(w.kind) + 1 && WellNested(c) {
      var s :| 0 <= s < |cs| && cs[s] == c;
      StoryIsWellNested(c, e, s);
    }
    WellNestedDepth(w);
  }

  /** The structure generated for a registered project is a forest of
      well-nested trees, none deeper than four levels. */
  lemma StructureIsWellNested(ps: seq<Project>, id: string, o: Oracle, lower: string -> string)
    ensures forall w :: w in GenerateStructure(ps, id, o, lower) ==> WellNested(w) && DepthAtMost(w, 4)
  {
    var r := GenerateStructure(ps, id, o, lower);
    forall w | w in r ensures WellNested(w) && DepthAtMost(w, 4) {
      var e :| 0 <= e < |r| && r[e] == w;
      EpicIsWellNested(w, e, Registry.Find(ps, id).value.objectives[e]);
    }
  }

  // ---------------------------------------------------------------------
  // Titles of siblings.

  lemma StoryTitlesDistinct()
    ensures forall i, j :: 0 <= i < j < |StoryTitles| ==> StoryTitles[i] != StoryTitles[j]
  {
  }

  lemma TaskTitlesDistinct()
    ensures forall i, j :: 0 <= i < j < |TaskTitles| ==> TaskTitles[i] != TaskTitles[j]
  {
  }

  lemma SubtaskTitlesDistinct()
    ensures forall i, j :: 0 <= i < j < |SubtaskTitles| ==> SubtaskTitles[i] != SubtaskTitles[j]
  {
  }

  /** The stories of one epic (at most four) have pairwise different titles. */
  lemma SiblingStoryTitlesDiffer(e: nat, s1: nat, s2: nat)
    requires s1 < s2 < 4
    ensures StoryTitle(e, s1) != StoryTitle(e, s2)
  {
    var i := (e * 4 + s1) % 12;
    var j := (e * 4 + s2) % 12;
    ShiftedIndicesDiffer12(e * 4, s1, s2);
    StoryTitlesDistinct();
    if i < j { assert StoryTitles[i] != StoryTitles[j]; }
    else { assert StoryTitles[j] != StoryTitles[i]; }
  }

  /** The tasks of one story (at most five) have pairwise different titles. */
  lemma SiblingTaskTitlesDiffer(s: nat, t1: nat, t2: nat)
    requires t1 < t2 < 5
    ensures TaskTitle(s, t1) != TaskTitle(s, t2)
  {
    var i := (s * 5 + t1) % 16;
    var j := (s * 5 + t2) % 16;
    ShiftedIndicesDiffer16(s * 5, t1, t2);
    TaskTitlesDistinct();
    if i < j { assert TaskTitles[i] != TaskTitles[j]; }
    else { assert TaskTitles[j] != TaskTitles[i]; }
  }

  /** The subtasks of one task (at most three) have pairwise different titles. */
  lemma SiblingSubtaskTitlesDiffer(t: nat, u1: nat, u2: nat)
    requires u1 < u2 < 3
    ensures SubtaskTitle(t, u1) != SubtaskTitle(t, u2)
  {
    var i := (t * 3 + u1) % 12;
    var j := (t * 3 + u2) % 12;
    ShiftedIndicesDiffer12(t * 3, u1, u2);
    SubtaskTitlesDistinct();
    if i < j { assert SubtaskTitles[i] != SubtaskTitles[j]; }
    else { assert SubtaskTitles[j] != SubtaskTitles[i]; }
  }

  /** Two offsets less than twelve apart land on different residues
      modulo twelve. */
  lemma ShiftedIndicesDiffer12(x: int, d1: int, d2: int)
    requires 0 <= d1 < d2 < d1 + 12
    ensures (x + d1) % 12 != (x + d2) % 12
  {
  }

  /** Two offsets less than sixteen apart land on different residues
      modulo sixteen. */
  lemma ShiftedIndicesDiffer16(x: int, d1: int, d2: int)
    requires 0 <= d1 < d2 < d1 + 16
    ensures (x + d1) % 16 != (x + d2) % 16
  {
  }

  /** Story titles repeat every three epics. */
  lemma StoryTitlePeriod(e: nat, s: nat)
    ensures StoryTitle(e + 3, s) == StoryTitle(e, s)
  {
    var x := e * 4 + s;
    assert (e + 3) * 4 + s == x + 12;
    assert (x + 12) % 12 == x % 12;
  }
}
