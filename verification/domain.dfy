/** Entities shared by the planner: projects, team members, work items and the
    two fixed question catalogues that drive the intake wizard.

    JavaScript's "falsy" test is written out explicitly: a text field is
    falsy when it is absent or empty, a number when it is absent or zero, and
    an array is never falsy once present. */
module Domain {

  datatype Option<+T> = None | Some(value: T) {
    function GetOr(default: T): T {
      match this
      case Some(v) => v
      case None => default
    }
  }

  datatype Experience = Junior | MidLevel | Senior
  datatype Availability = FullTime | PartTime | Contractor

  /** A team member as the wizard stores it. The wizard keeps a partial draft
      and casts it to a member when it commits, so every answer is optional
      here; the wizard invariant shows that committed members are complete. */
  datatype TeamMember = TeamMember(
    id: string,
    role: Option<string>,
    experience: Option<Experience>,
    availability: Option<Availability>)

  /** A partial project, as handed to the registry's create operation and as
      edited by the wizard: any field may be absent. */
  datatype ProjectDraft = ProjectDraft(
    name: Option<string>,
    description: Option<string>,
    objectives: Option<seq<string>>,
    teamSize: Option<int>,
    teamRoles: Option<seq<TeamMember>>,
    timeline: Option<string>)

  /** A registered project. The creation timestamp is not modelled. */
  datatype Project = Project(
    id: string,
    name: string,
    description: string,
    objectives: seq<string>,
    teamSize: int,
    teamRoles: seq<TeamMember>,
    timeline: string,
    currentQuestion: int,
    completed: bool)

  datatype WorkKind = Epic | Story | Task | Subtask

  /** A node of the work breakdown. `storyPoints` and `children` are optional
      fields of the source record; a subtask carries no `children` field. */
  datatype WorkItem = WorkItem(
    id: string,
    title: string,
    description: string,
    storyPoints: Option<int>,
    children: Children,
    kind: WorkKind)

  /** The optional `children` field of a work item. */
  datatype Children = Absent | Present(items: seq<WorkItem>)

  /** A text value is truthy when present and non-empty. */
  predicate TruthyText(s: Option<string>) {
    s.Some? && s.value != ""
  }

  /** A number is truthy when present and non-zero (NaN is not modelled). */
  predicate TruthyNumber(n: Option<int>) {
    n.Some? && n.value != 0
  }

  /** `teamSize || 1`: a falsy team size reads as one. */
  function SizeOrOne(n: Option<int>): (r: int)
    ensures r != 0
    ensures TruthyNumber(n) ==> r == n.value
    ensures !TruthyNumber(n) ==> r == 1
  {
    if TruthyNumber(n) then n.value else 1
  }

  /** A member all three of whose answers are present and truthy. */
  predicate Complete(m: TeamMember) {
    TruthyText(m.role) && m.experience.Some? && m.availability.Some?
  }

  datatype ProjectField = NameField | DescriptionField | ObjectivesField | TeamSizeField | TimelineField
  datatype MemberField = RoleField | ExperienceField | AvailabilityField

  datatype ProjectQuestion = ProjectQuestion(field: ProjectField, required: bool)
  datatype MemberQuestion = MemberQuestion(field: MemberField, required: bool)

  /** The five project questions, in the order the wizard asks them. The
      prompt and placeholder texts are presentation and are left out. */
  const ProjectQuestions: seq<ProjectQuestion> := [
    ProjectQuestion(NameField, true),
    ProjectQuestion(DescriptionField, true),
    ProjectQuestion(ObjectivesField, true),
    ProjectQuestion(TeamSizeField, true),
    ProjectQuestion(TimelineField, true)
  ]

  /** The three questions asked once per team member. */
  const TeamMemberQuestions: seq<MemberQuestion> := [
    MemberQuestion(RoleField, true),
    MemberQuestion(ExperienceField, true),
    MemberQuestion(AvailabilityField, true)
  ]

  const ExperienceOptions: seq<Experience> := [Junior, MidLevel, Senior]
  const AvailabilityOptions: seq<Availability> := [FullTime, PartTime, Contractor]

  /** Index of the last project question (the timeline). */
  const LastProjectStep: int := |ProjectQuestions| - 1
  /** Index of the last team-member question (the availability). */
  const LastTeamStep: int := |TeamMemberQuestions| - 1
}
