/** The intake wizard: five project questions, then three questions per team
    member, each `Next` guarded by a required-answer check.

    The React component's state (`currentStep`, `showTeamMembers`,
    `projectData`, `currentTeamMember`, `currentTeamMemberIndex`,
    `currentTeamStep`) is one immutable record, and every handler is a pure
    transition applied atomically. The effect that gives a fresh member draft
    to a newly entered member is folded into the transitions that trigger it;
    the fresh identifier it draws at random is a parameter. Handlers that
    finish the wizard return the draft handed to the registry's create
    operation. */
module Wizard {
  import opened Domain
  import Registry

  // ---------------------------------------------------------------------
  // White space, as `String.prototype.trim` removes it.

  /** ECMAScript white space and line terminators. */
  predicate IsWhitespace(c: char) {
    || c == '\t' || c == '\n' || c == '\U{B}' || c == '\U{C}' || c == '\r' || c == ' '
    || c == '\U{A0}' || c == '\U{1680}' || ('\U{2000}' <= c <= '\U{200A}')
    || c == '\U{2028}' || c == '\U{2029}' || c == '\U{202F}' || c == '\U{205F}'
    || c == '\U{3000}' || c == '\U{FEFF}'
  }

  /** Every character is white space. */
  predicate Blank(s: string) {
    forall i :: 0 <= i < |s| ==> IsWhitespace(s[i])
  }

  /** Text is blank exactly when its first character is white space and
      the rest is blank. */
  lemma BlankFront(s: string)
    requires s != []
    ensures Blank(s) <==> IsWhitespace(s[0]) && Blank(s[1..])
  {
    if IsWhitespace(s[0]) && Blank(s[1..]) {
      forall i | 0 <= i < |s| ensures IsWhitespace(s[i]) {
        if i > 0 { assert s[i] == s[1..][i - 1]; }
      }
    }
  }

  /** Text is blank exactly when its last character is white space and the
      rest is blank. */
  lemma BlankBack(s: string)
    requires s != []
    ensures Blank(s) <==> IsWhitespace(s[|s| - 1]) && Blank(s[..|s| - 1])
  {
    if IsWhitespace(s[|s| - 1]) && Blank(s[..|s| - 1]) {
      forall i | 0 <= i < |s| ensures IsWhitespace(s[i]) {
        if i < |s| - 1 { assert s[i] == s[..|s| - 1][i]; }
      }
    }
  }

  /** A blank prefix of the tail, behind a white-space head, is a blank
      prefix of the whole. */
  lemma BlankPrefixCons(s: string, n: int)
    requires s != [] && IsWhitespace(s[0]) && 0 <= n <= |s| - 1
    requires Blank(s[1..][..n])
    ensures Blank(s[..n + 1])
  {
    forall i | 0 <= i <= n ensures IsWhitespace(s[i]) {
      if i > 0 { assert s[i] == s[1..][..n][i - 1]; }
    }
  }

  /** A blank suffix of the front, ahead of a white-space last character,
      is a blank suffix of the whole. */
  lemma BlankSuffixSnoc(s: string, n: int)
    requires s != [] && IsWhitespace(s[|s| - 1]) && 0 <= n <= |s| - 1
    requires Blank(s[..|s| - 1][n..])
    ensures Blank(s[n..])
  {
    forall i | n <= i < |s| ensures IsWhitespace(s[i]) {
      if i < |s| - 1 { assert s[i] == s[..|s| - 1][n..][i - n]; }
    }
  }

  function TrimStart(s: string): (r: string)
    ensures |r| <= |s| && r == s[|s| - |r|..]
    ensures r == [] <==> Blank(s)
    ensures r != [] ==> !IsWhitespace(r[0])
    ensures Blank(s[..|s| - |r|])
  {
    if s != [] && IsWhitespace(s[0]) then
      BlankFront(s);
      var r := TrimStart(s[1..]);
      BlankPrefixCons(s, |s| - 1 - |r|);
      r
    else
      s
  }

  function TrimEnd(s: string): (r: string)
    ensures |r| <= |s| && r == s[..|r|]
    ensures r == [] <==> Blank(s)
    ensures r != [] ==> !IsWhitespace(r[|r| - 1])
    ensures Blank(s[|r|..])
  {
    if s != [] && IsWhitespace(s[|s| - 1]) then
      BlankBack(s);
      var r := TrimEnd(s[..|s| - 1]);
      BlankSuffixSnoc(s, |r|);
      r
    else
      s
  }

  /** How many characters `TrimStart` removes from the front of `s`. */
  function LeadLength(s: string): (n: nat)
    ensures n <= |s| && Blank(s[..n])
    ensures n < |s| ==> !IsWhitespace(s[n])
  {
    |s| - |TrimStart(s)|
  }

  /** `s.trim()`: white space removed from both ends. */
  function Trim(s: string): (r: string)
    ensures r == [] <==> Blank(s)
    ensures r != [] ==> !IsWhitespace(r[0]) && !IsWhitespace(r[|r| - 1])
    ensures LeadLength(s) + |r| <= |s| && r == s[LeadLength(s)..LeadLength(s) + |r|]
    ensures Blank(s[LeadLength(s) + |r|..])
  {
    var t := TrimStart(s);
    var r := TrimEnd(t);
    TrimInfix(s, t, r);
    r
  }

  /** Trimming the front and then the back leaves an infix of `s` between
      two blank ends. */
  lemma TrimInfix(s: string, t: string, r: string)
    requires |t| <= |s| && t == s[|s| - |t|..]
    requires |r| <= |t| && r == t[..|r|] && Blank(t[|r|..])
    requires t == [] <==> Blank(s)
    requires t != [] ==> !IsWhitespace(t[0])
    requires r == [] <==> Blank(t)
    ensures r == [] <==> Blank(s)
    ensures r != [] ==> !IsWhitespace(r[0])
    ensures r == s[|s| - |t|..|s| - |t| + |r|] && Blank(s[|s| - |t| + |r|..])
  {
    if r != [] { assert r[0] == t[0]; }
    if t == [] { assert r == []; }
    assert s[|s| - |t| + |r|..] == t[|r|..];
  }

  // ---------------------------------------------------------------------
  // Required-answer checks.

  /** The objectives answer: no entry trims to the empty string. An absent
      list reads as `['']`. */
  predicate ObjectivesAnswered(d: ProjectDraft) {
    var objectives := d.objectives.GetOr([""]);
    forall i :: 0 <= i < |objectives| ==> Trim(objectives[i]) != ""
  }

  /** The check `goToNextProjectQuestion` applies to the question on `f`. */
  predicate Answered(d: ProjectDraft, f: ProjectField) {
    match f
    case NameField => TruthyText(d.name)
    case DescriptionField => TruthyText(d.description)
    case ObjectivesField => ObjectivesAnswered(d)
    case TeamSizeField => TruthyNumber(d.teamSize)
    case TimelineField => TruthyText(d.timeline)
  }

  /** The check `goToNextTeamQuestion` applies to the question on `f`. */
  predicate MemberAnswered(m: TeamMember, f: MemberField) {
    match f
    case RoleField => TruthyText(m.role)
    case ExperienceField => m.experience.Some?
    case AvailabilityField => m.availability.Some?
  }

  // ---------------------------------------------------------------------
  // The wizard state and its transitions.

  datatype Wizard = Wizard(
    step: int,
    showTeam: bool,
    draft: ProjectDraft,
    member: TeamMember,
    memberIndex: int,
    teamStep: int)

  /** Outcome of a handler: the next state, and the draft handed to the
      registry when the handler finishes the wizard. */
  datatype Reaction = Reaction(next: Wizard, submitted: Option<ProjectDraft>)

  /** The member draft a newly entered member starts from. */
  function FreshMember(id: string): (m: TeamMember)
    ensures m.id == id
    ensures forall f :: !MemberAnswered(m, f)
  {
    TeamMember(id, None, None, None)
  }

  /** The reachable-state invariant: positions in range, an objectives list
      that is never empty, every project question before the current one
      answered (all five once in the team phase), the answers of the
      current member before the current team question given, and every
      committed member complete. */
  predicate Valid(w: Wizard) {
    && 0 <= w.step <= LastProjectStep
    && 0 <= w.teamStep <= LastTeamStep
    && w.draft.objectives.Some? && |w.draft.objectives.value| >= 1
    && w.draft.teamRoles.Some?
    && 0 <= w.memberIndex <= |w.draft.teamRoles.value|
    && (!w.showTeam ==> w.memberIndex == 0 && w.teamStep == 0)
    && (w.showTeam ==> w.step == LastProjectStep)
    && (forall i :: 0 <= i < |ProjectQuestions| && (i < w.step || w.showTeam) ==> Answered(w.draft, ProjectQuestions[i].field))
    && (forall j :: 0 <= j < w.teamStep ==> MemberAnswered(w.member, TeamMemberQuestions[j].field))
    && (forall k :: 0 <= k < |w.draft.teamRoles.value| ==> Complete(w.draft.teamRoles.value[k]))
  }

  /** The state the form mounts with. The member draft starts as `{}`; its
      empty identifier is never committed, since entering the team phase
      replaces it. */
  function Initial(): (w: Wizard)
    ensures w.step == 0 && !w.showTeam && w.memberIndex == 0 && w.teamStep == 0
    ensures w.draft.objectives == Some([""])
    ensures w.draft.teamSize == Some(1) && w.draft.teamRoles == Some([])
    ensures Valid(w)
  {
    Wizard(
      0, false,
      ProjectDraft(Some(""), Some(""), Some([""]), Some(1), Some([]), Some("")),
      TeamMember("", None, None, None),
      0, 0)
  }

  /** `goToNextProjectQuestion`. */
  function ProjectNext(w: Wizard, freshId: string): (r: Wizard)
    requires 0 <= w.step < |ProjectQuestions|
    ensures r.draft == w.draft && r.memberIndex == w.memberIndex && r.teamStep == w.teamStep
    ensures 0 <= r.step <= LastProjectStep
    ensures !Answered(w.draft, ProjectQuestions[w.step].field) ==> r == w
    ensures Answered(w.draft, ProjectQuestions[w.step].field) && w.step < LastProjectStep ==>
              r == w.(step := w.step + 1)
    ensures Answered(w.draft, ProjectQuestions[w.step].field) && w.step == LastProjectStep ==>
              r.(member := w.member) == w.(showTeam := true) && (w.teamStep == 0 ==> r.member == FreshMember(freshId))
  {
    var q := ProjectQuestions[w.step];
    if q.required && !Answered(w.draft, q.field) then w
    else if w.step < LastProjectStep then w.(step := w.step + 1)
    else w.(showTeam := true, member := if w.teamStep == 0 then FreshMember(freshId) else w.member)
  }

  /** `goToPrevProjectQuestion`. */
  function ProjectBack(w: Wizard): (r: Wizard)
    ensures r.draft == w.draft && r.showTeam == w.showTeam
    ensures w.step > 0 ==> r == w.(step := w.step - 1)
    ensures w.step <= 0 ==> r == w
  {
    if w.step > 0 then w.(step := w.step - 1) else w
  }

  /** `newTeamRoles[i] = member` on a list that already holds entries
      0..i-1: overwrite entry `i`, or append when `i` is the length. */
  function Commit(roles: seq<TeamMember>, i: int, m: TeamMember): (r: seq<TeamMember>)
    requires 0 <= i <= |roles|
    ensures |r| == if i < |roles| then |roles| else |roles| + 1
    ensures r[i] == m
    ensures forall k :: 0 <= k < |roles| && k != i ==> r[k] == roles[k]
  {
    if i < |roles| then roles[i := m] else roles + [m]
  }

  /** `goToNextTeamQuestion`, with the member committed before the draft is
      submitted. */
  function TeamNext(w: Wizard, freshId: string): (r: Reaction)
    requires 0 <= w.teamStep < |TeamMemberQuestions|
    requires 0 <= w.memberIndex <= |w.draft.teamRoles.GetOr([])|
    ensures r.submitted.Some? ==> r.submitted.value == r.next.draft
    ensures r.next.step == w.step && r.next.showTeam == w.showTeam
    ensures !MemberAnswered(w.member, TeamMemberQuestions[w.teamStep].field) ==> r == Reaction(w, None)
    ensures MemberAnswered(w.member, TeamMemberQuestions[w.teamStep].field) && w.teamStep < LastTeamStep ==>
              r == Reaction(w.(teamStep := w.teamStep + 1), None)
    ensures MemberAnswered(w.member, TeamMemberQuestions[w.teamStep].field) && w.teamStep == LastTeamStep ==>
              var before := w.draft.teamRoles.GetOr([]);
              && r.next.draft.(teamRoles := w.draft.teamRoles) == w.draft
              && r.next.draft.teamRoles.Some?
              && |r.next.draft.teamRoles.value| == (if w.memberIndex < |before| then |before| else |before| + 1)
              && r.next.draft.teamRoles.value[w.memberIndex] == w.member
              && (forall k :: 0 <= k < |before| && k != w.memberIndex ==> r.next.draft.teamRoles.value[k] == before[k])
              && (r.submitted.Some? <==> w.memberIndex >= SizeOrOne(w.draft.teamSize) - 1)
              && (r.submitted.Some? ==> r.next == w.(draft := r.next.draft))
              && (r.submitted.None? ==> r.next == w.(draft := r.next.draft, memberIndex := w.memberIndex + 1,
                                                     teamStep := 0, member := FreshMember(freshId)))
  {
    var q := TeamMemberQuestions[w.teamStep];
    if q.required && !MemberAnswered(w.member, q.field) then Reaction(w, None)
    else if w.teamStep < LastTeamStep then Reaction(w.(teamStep := w.teamStep + 1), None)
    else
      var roles := Commit(w.draft.teamRoles.GetOr([]), w.memberIndex, w.member);
      var draft := w.draft.(teamRoles := Some(roles));
      if w.memberIndex >= SizeOrOne(w.draft.teamSize) - 1 then
        Reaction(w.(draft := draft), Some(draft))
      else
        Reaction(w.(draft := draft, memberIndex := w.memberIndex + 1, teamStep := 0, member := FreshMember(freshId)), None)
  }

  /** `goToNextTeamQuestion` as the form runs it: the member is committed to
      the next render's draft, but `finalizeProject` reads the draft of the
      render the handler belongs to, so the submission lacks that commit. */
  function TeamNextAsWritten(w: Wizard, freshId: string): (r: Reaction)
    requires 0 <= w.teamStep < |TeamMemberQuestions|
    requires 0 <= w.memberIndex <= |w.draft.teamRoles.GetOr([])|
    ensures r.next == TeamNext(w, freshId).next
    ensures r.submitted.Some? <==> TeamNext(w, freshId).submitted.Some?
    ensures r.submitted.Some? ==> r.submitted.value == w.draft
  {
    var r := TeamNext(w, freshId);
    Reaction(r.next, if r.submitted.Some? then Some(w.draft) else None)
  }

  /** `goToPrevTeamQuestion`. */
  function TeamBack(w: Wizard): (r: Wizard)
    ensures r.draft == w.draft
    ensures w.teamStep > 0 ==> r == w.(teamStep := w.teamStep - 1)
    ensures w.teamStep <= 0 && w.memberIndex > 0 ==>
              r == w.(memberIndex := w.memberIndex - 1, teamStep := LastTeamStep,
                      member := if w.memberIndex - 1 < |w.draft.teamRoles.GetOr([])|
                                then w.draft.teamRoles.GetOr([])[w.memberIndex - 1] else w.member)
    ensures w.teamStep <= 0 && w.memberIndex <= 0 ==>
              r == w.(showTeam := false, step := LastProjectStep)
  {
    if w.teamStep > 0 then w.(teamStep := w.teamStep - 1)
    else if w.memberIndex > 0 then
      var roles := w.draft.teamRoles.GetOr([]);
      var restored := if w.memberIndex - 1 < |roles| then roles[w.memberIndex - 1] else w.member;
      w.(memberIndex := w.memberIndex - 1, teamStep := LastTeamStep, member := restored)
    else
      w.(showTeam := false, step := LastProjectStep)
  }

  /** Positions the handlers can index with. */
  predicate InRange(w: Wizard) {
    && 0 <= w.step < |ProjectQuestions|
    && 0 <= w.teamStep < |TeamMemberQuestions|
    && 0 <= w.memberIndex <= |w.draft.teamRoles.GetOr([])|
  }

  /** The form's submit: the team handler in the team phase, the project
      handler otherwise. */
  function Next(w: Wizard, freshId: string): (r: Reaction)
    requires InRange(w)
    ensures !w.showTeam ==> r.submitted.None?
  {
    if w.showTeam then TeamNext(w, freshId) else Reaction(ProjectNext(w, freshId), None)
  }

  /** The Back button. */
  function Back(w: Wizard): (r: Wizard)
    ensures r.draft == w.draft
  {
    if w.showTeam then TeamBack(w) else ProjectBack(w)
  }

  // ---------------------------------------------------------------------
  // Editing answers.

  /** What an input reports: a text, or the team-size input's `parseInt`
      result, where `None` stands for NaN. */
  datatype Answer = TextAnswer(text: string) | NumberAnswer(parsed: Option<int>)

  /** `handleInputChange` for the name, description, team size and timeline
      questions; the text answers go to text fields, and the team-size input
      stores `parseInt(value) || 1`. */
  function InputChange(w: Wizard, f: ProjectField, a: Answer): (r: Wizard)
    requires f != ObjectivesField
    requires f == TeamSizeField <==> a.NumberAnswer?
    ensures r.(draft := w.draft) == w
    ensures r.draft.objectives == w.draft.objectives && r.draft.teamRoles == w.draft.teamRoles
    ensures r.draft.name == (if f == NameField then Some(a.text) else w.draft.name)
    ensures r.draft.description == (if f == DescriptionField then Some(a.text) else w.draft.description)
    ensures r.draft.teamSize == (if f == TeamSizeField then Some(TeamSizeFromInput(a.parsed)) else w.draft.teamSize)
    ensures f == TeamSizeField ==> TruthyNumber(r.draft.teamSize)
    ensures r.draft.timeline == (if f == TimelineField then Some(a.text) else w.draft.timeline)
  {
    var d := w.draft;
    match f
    case NameField => w.(draft := d.(name := Some(a.text)))
    case DescriptionField => w.(draft := d.(description := Some(a.text)))
    case TeamSizeField => w.(draft := d.(teamSize := Some(TeamSizeFromInput(a.parsed))))
    case TimelineField => w.(draft := d.(timeline := Some(a.text)))
  }

  /** The team-size input's `parseInt(value) || 1`; `None` stands for NaN. */
  function TeamSizeFromInput(parsed: Option<int>): (n: int)
    ensures n != 0
    ensures parsed.Some? && parsed.value != 0 ==> n == parsed.value
    ensures parsed.None? || parsed.value == 0 ==> n == 1
  {
    if parsed.Some? && parsed.value != 0 then parsed.value else 1
  }

  /** The objectives list the handlers edit; an absent list reads as `['']`. */
  function ObjectivesOf(w: Wizard): seq<string> {
    w.draft.objectives.GetOr([""])
  }

  /** `handleObjectivesChange`: replace the entry at `index`. A negative index
      sets no list element, so the list is unchanged. */
  function ChangeObjective(w: Wizard, index: int, value: string): (r: Wizard)
    requires index < |ObjectivesOf(w)|
    ensures r.(draft := w.draft) == w && r.draft.(objectives := w.draft.objectives) == w.draft
    ensures r.draft.objectives.Some? && |r.draft.objectives.value| == |ObjectivesOf(w)|
    ensures forall k :: 0 <= k < |ObjectivesOf(w)| ==>
              r.draft.objectives.value[k] == if k == index then value else ObjectivesOf(w)[k]
  {
    var objectives := ObjectivesOf(w);
    var updated := if index >= 0 then objectives[index := value] else objectives;
    w.(draft := w.draft.(objectives := Some(updated)))
  }

  /** `addObjective`: append an empty entry. */
  function AddObjective(w: Wizard): (r: Wizard)
    ensures r.(draft := w.draft) == w && r.draft.(objectives := w.draft.objectives) == w.draft
    ensures r.draft.objectives.Some?
    ensures |r.draft.objectives.value| == |ObjectivesOf(w)| + 1
    ensures r.draft.objectives.value[..|ObjectivesOf(w)|] == ObjectivesOf(w)
    ensures r.draft.objectives.value[|ObjectivesOf(w)|] == ""
  {
    w.(draft := w.draft.(objectives := Some(ObjectivesOf(w) + [""])))
  }

  /** Where `splice(index, 1)` starts on a list of length `len`. */
  function SpliceStart(index: int, len: nat): (start: int)
    ensures 0 <= start <= len
    ensures 0 <= index <= len ==> start == index
  {
    if index < 0 then (if len + index < 0 then 0 else len + index)
    else if index < len then index else len
  }

  /** `removeObjective`: a no-op while at most one entry is left, otherwise
      `splice(index, 1)`. */
  function RemoveObjective(w: Wizard, index: int): (r: Wizard)
    ensures r.(draft := w.draft) == w && r.draft.(objectives := w.draft.objectives) == w.draft
    ensures w.draft.objectives.None? || |w.draft.objectives.value| <= 1 ==> r == w
    ensures w.draft.objectives.Some? && |w.draft.objectives.value| >= 1 ==>
              r.draft.objectives.Some? && |r.draft.objectives.value| >= 1
    ensures w.draft.objectives.Some? && 0 <= index < |w.draft.objectives.value| && |w.draft.objectives.value| > 1 ==>
              var before := w.draft.objectives.value;
              var after := r.draft.objectives.value;
              && |after| == |before| - 1
              && (forall k :: 0 <= k < index ==> after[k] == before[k])
              && (forall k :: index <= k < |after| ==> after[k] == before[k + 1])
  {
    if w.draft.objectives.None? || |w.draft.objectives.value| <= 1 then w
    else
      var objectives := w.draft.objectives.value;
      var start := SpliceStart(index, |objectives|);
      if start < |objectives| then
        w.(draft := w.draft.(objectives := Some(objectives[..start] + objectives[start + 1..])))
      else
        w
  }

  datatype MemberAnswer = RoleAnswer(role: string) | ExperienceAnswer(experience: Experience) | AvailabilityAnswer(availability: Availability)

  /** The question a member answer belongs to. */
  function AnswerField(a: MemberAnswer): MemberField {
    match a
    case RoleAnswer(_) => RoleField
    case ExperienceAnswer(_) => ExperienceField
    case AvailabilityAnswer(_) => AvailabilityField
  }

  /** `handleTeamMemberChange`: set one answer of the current member draft. */
  function MemberChange(w: Wizard, a: MemberAnswer): (r: Wizard)
    ensures r.(member := w.member) == w && r.member.id == w.member.id
    ensures MemberAnswered(r.member, AnswerField(a)) <==> (a.RoleAnswer? ==> a.role != "")
    ensures forall f :: f != AnswerField(a) ==> (MemberAnswered(r.member, f) <==> MemberAnswered(w.member, f))
    ensures r.member.role == (if a.RoleAnswer? then Some(a.role) else w.member.role)
    ensures r.member.experience == (if a.ExperienceAnswer? then Some(a.experience) else w.member.experience)
    ensures r.member.availability == (if a.AvailabilityAnswer? then Some(a.availability) else w.member.availability)
  {
    match a
    case RoleAnswer(role) => w.(member := w.member.(role := Some(role)))
    case ExperienceAnswer(e) => w.(member := w.member.(experience := Some(e)))
    case AvailabilityAnswer(v) => w.(member := w.member.(availability := Some(v)))
  }

  // ---------------------------------------------------------------------
  // Skipping to the structure.

  /** The stand-in members `skipToScaffold` would create: `Array.from` with a
      negative length gives none. */
  function Placeholders(n: int, idOf: nat -> string): (r: seq<TeamMember>)
    ensures |r| == if n > 0 then n else 0
    ensures forall i :: 0 <= i < |r| ==> Complete(r[i]) && r[i].id == idOf(i)
                                         && r[i].role == Some("Team Member")
                                         && r[i].experience == Some(MidLevel)
                                         && r[i].availability == Some(FullTime)
  {
    seq(if n > 0 then n else 0, i requires i >= 0 => TeamMember(idOf(i), Some("Team Member"), Some(MidLevel), Some(FullTime)))
  }

  /** `skipToScaffold`: nothing without a name; otherwise submit the draft
      as it stands, with stand-in members only if the member list is
      absent. */
  function Skip(w: Wizard, idOf: nat -> string): (r: Option<ProjectDraft>)
    ensures r.None? <==> !TruthyText(w.draft.name)
    ensures r.Some? ==> r.value.(teamRoles := w.draft.teamRoles) == w.draft
    ensures r.Some? && w.draft.teamRoles.Some? ==> r.value == w.draft
    ensures r.Some? && w.draft.teamRoles.None? ==>
              r.value.teamRoles == Some(Placeholders(SizeOrOne(w.draft.teamSize), idOf))
  {
    if !TruthyText(w.draft.name) then None
    else
      var roles := if w.draft.teamRoles.Some? then w.draft.teamRoles.value
                   else Placeholders(SizeOrOne(w.draft.teamSize), idOf);
      Some(w.draft.(teamRoles := Some(roles)))
  }

  // ---------------------------------------------------------------------
  // Events.

  datatype Event =
    | NextPressed(freshId: string)
    | BackPressed
    | Input(field: ProjectField, answer: Answer)
    | ObjectiveChanged(index: int, value: string)
    | ObjectiveAdded
    | ObjectiveRemoved(index: int)
    | MemberInput(memberAnswer: MemberAnswer)
    | SkipPressed(idOf: nat -> string)

  /** The events the form can raise in state `w`: edits only reach the
      question on screen, and the skip button is shown only before the team
      questions. */
  predicate Enabled(w: Wizard, e: Event) {
    match e
    case NextPressed(_) => InRange(w)
    case BackPressed => true
    case Input(f, a) =>
      && !w.showTeam && 0 <= w.step < |ProjectQuestions| && ProjectQuestions[w.step].field == f
      && f != ObjectivesField && (f == TeamSizeField <==> a.NumberAnswer?)
    case ObjectiveChanged(index, _) =>
      && !w.showTeam && 0 <= w.step < |ProjectQuestions| && ProjectQuestions[w.step].field == ObjectivesField
      && 0 <= index < |ObjectivesOf(w)|
    case ObjectiveAdded =>
      !w.showTeam && 0 <= w.step < |ProjectQuestions| && ProjectQuestions[w.step].field == ObjectivesField
    case ObjectiveRemoved(index) =>
      && !w.showTeam && 0 <= w.step < |ProjectQuestions| && ProjectQuestions[w.step].field == ObjectivesField
      && 0 <= index < |ObjectivesOf(w)|
    case MemberInput(a) =>
      w.showTeam && 0 <= w.teamStep < |TeamMemberQuestions| && TeamMemberQuestions[w.teamStep].field == AnswerField(a)
    case SkipPressed(_) => !w.showTeam
  }

  /** The transition function `(state, event) -> state`. */
  function Step(w: Wizard, e: Event): (r: Reaction)
    requires Enabled(w, e)
    ensures !e.NextPressed? && !e.SkipPressed? ==> r.submitted.None?
    ensures e.SkipPressed? ==> r.next == w
  {
    match e
    case NextPressed(id) => Next(w, id)
    case BackPressed => Reaction(Back(w), None)
    case Input(f, a) => Reaction(InputChange(w, f, a), None)
    case ObjectiveChanged(index, value) => Reaction(ChangeObjective(w, index, value), None)
    case ObjectiveAdded => Reaction(AddObjective(w), None)
    case ObjectiveRemoved(index) => Reaction(RemoveObjective(w, index), None)
    case MemberInput(a) => Reaction(MemberChange(w, a), None)
    case SkipPressed(idOf) => Reaction(w, Skip(w, idOf))
  }

  /** One event, or nothing when the form could not raise it. */
  function Apply(w: Wizard, e: Event): Wizard {
    if Enabled(w, e) then Step(w, e).next else w
  }

  /** Applies the events in order, ignoring those the form could not raise
      in the state reached. */
  function Run(w: Wizard, es: seq<Event>): Wizard
    decreases |es|
  {
    if es == [] then w else Run(Apply(w, es[0]), es[1..])
  }

  lemma {:induction false} RunAppend(w: Wizard, a: seq<Event>, b: seq<Event>)
    ensures Run(w, a + b) == Run(Run(w, a), b)
    decreases |a|
  {
    if a != [] {
      assert (a + b)[0] == a[0];
      assert (a + b)[1..] == a[1..] + b;
      var next := Apply(w, a[0]);
      RunAppend(next, a[1..], b);
      assert Run(w, a) == Run(next, a[1..]);
      assert Run(w, a + b) == Run(next, a[1..] + b);
    } else {
      assert a + b == b;
    }
  }

  /** Runs a trace whose intermediate states are known one by one. */
  lemma {:induction false} RunSteps(ws: seq<Wizard>, es: seq<Event>, i: nat)
    requires |ws| == |es| + 1 && i <= |es|
    requires forall k :: i <= k < |es| ==> ws[k + 1] == Apply(ws[k], es[k])
    ensures Run(ws[i], es[i..]) == ws[|es|]
    decreases |es| - i
  {
    if i < |es| {
      RunSteps(ws, es, i + 1);
      assert es[i..][0] == es[i];
      assert es[i..][1..] == es[i + 1..];
    }
  }

  // ---------------------------------------------------------------------
  // The invariant.

  lemma ProjectFieldsDistinct(i: int, j: int)
    requires 0 <= i < |ProjectQuestions| && 0 <= j < |ProjectQuestions| && i != j
    ensures ProjectQuestions[i].field != ProjectQuestions[j].field
  {
  }

  /** Answers to other fields survive an edit that leaves them unchanged. */
  lemma AnsweredFrame(d: ProjectDraft, e: ProjectDraft, f: ProjectField)
    requires f == NameField ==> e.name == d.name
    requires f == DescriptionField ==> e.description == d.description
    requires f == ObjectivesField ==> e.objectives == d.objectives
    requires f == TeamSizeField ==> e.teamSize == d.teamSize
    requires f == TimelineField ==> e.timeline == d.timeline
    ensures Answered(e, f) <==> Answered(d, f)
  {
  }

  lemma ProjectNextPreservesValid(w: Wizard, freshId: string)
    requires Valid(w) && !w.showTeam
    ensures Valid(ProjectNext(w, freshId))
  {
    var r := ProjectNext(w, freshId);
    var q := ProjectQuestions[w.step];
    if !(q.required && !Answered(w.draft, q.field)) {
      forall i | 0 <= i < |ProjectQuestions| && (i < r.step || r.showTeam)
        ensures Answered(r.draft, ProjectQuestions[i].field)
      {
        if i < w.step {
        } else {
          assert i == w.step;
        }
      }
    }
  }

  lemma TeamNextPreservesValid(w: Wizard, freshId: string)
    requires Valid(w) && w.showTeam
    ensures Valid(TeamNext(w, freshId).next)
  {
    var q := TeamMemberQuestions[w.teamStep];
    if !(q.required && !MemberAnswered(w.member, q.field)) && w.teamStep == LastTeamStep {
      assert MemberAnswered(w.member, TeamMemberQuestions[0].field);
      assert MemberAnswered(w.member, TeamMemberQuestions[1].field);
      assert Complete(w.member);
      var roles := Commit(w.draft.teamRoles.value, w.memberIndex, w.member);
      assert forall k :: 0 <= k < |roles| ==> Complete(roles[k]) by {
        forall k | 0 <= k < |roles| ensures Complete(roles[k]) {
          if k != w.memberIndex { assert roles[k] == w.draft.teamRoles.value[k]; }
        }
      }
      var d := w.draft.(teamRoles := Some(roles));
      forall f: ProjectField ensures Answered(d, f) <==> Answered(w.draft, f) {
        AnsweredFrame(w.draft, d, f);
      }
    } else if !(q.required && !MemberAnswered(w.member, q.field)) {
      assert MemberAnswered(w.member, TeamMemberQuestions[w.teamStep].field);
    }
  }

  lemma BackPreservesValid(w: Wizard)
    requires Valid(w)
    ensures Valid(Back(w))
  {
    if w.showTeam && w.teamStep == 0 && w.memberIndex > 0 {
      var m := w.draft.teamRoles.value[w.memberIndex - 1];
      assert Complete(m);
      assert Back(w).member == m;
    }
  }

  lemma InputPreservesValid(w: Wizard, f: ProjectField, a: Answer)
    requires Valid(w) && Enabled(w, Input(f, a))
    ensures Valid(InputChange(w, f, a))
  {
    var r := InputChange(w, f, a);
    forall i | 0 <= i < w.step ensures Answered(r.draft, ProjectQuestions[i].field) {
      ProjectFieldsDistinct(i, w.step);
      AnsweredFrame(w.draft, r.draft, ProjectQuestions[i].field);
    }
  }

  /** The objectives question is the third. */
  lemma ObjectivesStep(w: Wizard)
    requires 0 <= w.step < |ProjectQuestions| && ProjectQuestions[w.step].field == ObjectivesField
    ensures w.step == 2
  {
  }

  lemma ObjectiveEditPreservesValid(w: Wizard, e: Event)
    requires Valid(w) && Enabled(w, e)
    requires e.ObjectiveChanged? || e.ObjectiveAdded? || e.ObjectiveRemoved?
    ensures Valid(Step(w, e).next)
  {
    ObjectivesStep(w);
    var r := Step(w, e).next;
    forall i | 0 <= i < w.step ensures Answered(r.draft, ProjectQuestions[i].field) {
      AnsweredFrame(w.draft, r.draft, ProjectQuestions[i].field);
    }
  }

  lemma MemberInputPreservesValid(w: Wizard, a: MemberAnswer)
    requires Valid(w) && Enabled(w, MemberInput(a))
    ensures Valid(MemberChange(w, a))
  {
    var r := MemberChange(w, a);
    forall j | 0 <= j < w.teamStep ensures MemberAnswered(r.member, TeamMemberQuestions[j].field) {
      assert TeamMemberQuestions[j].field != TeamMemberQuestions[w.teamStep].field;
    }
  }

  /** Every event the form can raise keeps the invariant. */
  lemma StepPreservesValid(w: Wizard, e: Event)
    requires Valid(w) && Enabled(w, e)
    ensures Valid(Step(w, e).next)
  {
    match e
    case NextPressed(id) =>
      if w.showTeam { TeamNextPreservesValid(w, id); } else { ProjectNextPreservesValid(w, id); }
    case BackPressed => BackPreservesValid(w);
    case Input(f, a) => InputPreservesValid(w, f, a);
    case ObjectiveChanged(_, _) => ObjectiveEditPreservesValid(w, e);
    case ObjectiveAdded => ObjectiveEditPreservesValid(w, e);
    case ObjectiveRemoved(_) => ObjectiveEditPreservesValid(w, e);
    case MemberInput(a) => MemberInputPreservesValid(w, a);
    case SkipPressed(_) =>
  }

  /** Every state the form reaches from its initial state satisfies the
      invariant. */
  lemma {:induction false} RunPreservesValid(w: Wizard, es: seq<Event>)
    requires Valid(w)
    ensures Valid(Run(w, es))
    decreases |es|
  {
    if es != [] {
      if Enabled(w, es[0]) { StepPreservesValid(w, es[0]); }
      RunPreservesValid(Apply(w, es[0]), es[1..]);
    }
  }

  lemma ReachableIsValid(es: seq<Event>)
    ensures Valid(Run(Initial(), es))
  {
    RunPreservesValid(Initial(), es);
  }

  // ---------------------------------------------------------------------
  // What the wizard submits.

  /** A draft the wizard may hand to the registry: every project question
      answered, every member complete, and at least as many members as the
      team size asks for. */
  predicate Submittable(d: ProjectDraft) {
    && TruthyText(d.name) && TruthyText(d.description)
    && d.objectives.Some? && ObjectivesAnswered(d)
    && TruthyNumber(d.teamSize) && TruthyText(d.timeline)
    && d.teamRoles.Some?
    && (forall k :: 0 <= k < |d.teamRoles.value| ==> Complete(d.teamRoles.value[k]))
    && |d.teamRoles.value| >= SizeOrOne(d.teamSize)
  }

  /** The wizard finishes only from the last question of the last member,
      and only with a submittable draft that holds that member. */
  lemma SubmissionIsSubmittable(w: Wizard, e: Event)
    requires Valid(w) && Enabled(w, e) && !e.SkipPressed?
    requires Step(w, e).submitted.Some?
    ensures e.NextPressed? && w.showTeam && w.teamStep == LastTeamStep
    ensures w.memberIndex >= SizeOrOne(w.draft.teamSize) - 1
    ensures var d := Step(w, e).submitted.value;
            Submittable(d) && d.teamRoles.value[w.memberIndex] == w.member
  {
    TeamNextPreservesValid(w, e.freshId);
    var r := Step(w, e);
    var d := r.submitted.value;
    assert Valid(r.next) && r.next.draft == d;
    assert Answered(d, ProjectQuestions[0].field);
    assert Answered(d, ProjectQuestions[1].field);
    assert Answered(d, ProjectQuestions[2].field);
    assert Answered(d, ProjectQuestions[3].field);
    assert Answered(d, ProjectQuestions[4].field);
  }

  /** The registry entry created from a submitted draft keeps the answers
      and the committed members, with no default substituted. */
  lemma SubmittedProjectKeepsAnswers(d: ProjectDraft, id: string)
    requires Submittable(d)
    ensures var p := Registry.NewProject(d, id);
            && p.name == d.name.value && p.description == d.description.value
            && p.objectives == d.objectives.value && p.teamSize == d.teamSize.value
            && p.timeline == d.timeline.value && p.teamRoles == d.teamRoles.value
            && |p.teamRoles| >= p.teamSize
            && (forall k :: 0 <= k < |p.objectives| ==> !Blank(p.objectives[k]))
  {
    var objectives := d.objectives.GetOr([""]);
    assert objectives == d.objectives.value;
    forall k | 0 <= k < |objectives| ensures !Blank(objectives[k]) {
      assert Trim(objectives[k]) != "";
    }
  }

  // ---------------------------------------------------------------------
  // Guards and round trips.

  /** In the project phase Next changes nothing exactly when the question
      on screen is unanswered. */
  lemma ProjectNextGuard(w: Wizard, freshId: string)
    requires Valid(w) && !w.showTeam
    ensures ProjectNext(w, freshId) == w <==> !Answered(w.draft, ProjectQuestions[w.step].field)
  {
  }

  /** In the team phase Next changes nothing and submits nothing exactly
      when the question on screen is unanswered. */
  lemma TeamNextGuard(w: Wizard, freshId: string)
    requires Valid(w) && w.showTeam
    ensures TeamNext(w, freshId) == Reaction(w, None) <==> !MemberAnswered(w.member, TeamMemberQuestions[w.teamStep].field)
  {
  }

  /** Back undoes a successful Next within the project questions. */
  lemma ProjectNextThenBack(w: Wizard, freshId: string)
    requires Valid(w) && !w.showTeam && w.step < LastProjectStep
    requires Answered(w.draft, ProjectQuestions[w.step].field)
    ensures Back(Next(w, freshId).next) == w
  {
  }

  /** Back after the last project question returns to it with the draft
      intact; only the member draft has been replaced by a fresh one. */
  lemma EnterTeamThenBack(w: Wizard, freshId: string)
    requires Valid(w) && !w.showTeam && w.step == LastProjectStep
    requires Answered(w.draft, ProjectQuestions[w.step].field)
    ensures Next(w, freshId).next.showTeam
    ensures Back(Next(w, freshId).next) == w.(member := FreshMember(freshId))
  {
  }

  /** Back undoes a successful Next within one member's questions. */
  lemma TeamNextThenBack(w: Wizard, freshId: string)
    requires Valid(w) && w.showTeam && w.teamStep < LastTeamStep
    requires MemberAnswered(w.member, TeamMemberQuestions[w.teamStep].field)
    ensures Back(Next(w, freshId).next) == w
  {
  }

  /** Moving on to the next member and pressing Back restores the member
      just committed, on its last question; the draft keeps the commit. */
  lemma CommitThenBack(w: Wizard, freshId: string)
    requires Valid(w) && w.showTeam && w.teamStep == LastTeamStep
    requires MemberAnswered(w.member, AvailabilityField)
    requires w.memberIndex < SizeOrOne(w.draft.teamSize) - 1
    ensures Next(w, freshId).submitted.None?
    ensures var r := Back(Next(w, freshId).next);
            && r.(draft := w.draft) == w
            && r.draft.teamRoles == Some(Commit(w.draft.teamRoles.value, w.memberIndex, w.member))
  {
    var n := Next(w, freshId).next;
    assert n.draft.teamRoles.value[w.memberIndex] == w.member;
  }

  // ---------------------------------------------------------------------
  // The stale draft on finishing.

  /** As the form runs it, finishing submits the draft without the member
      whose last answer was just given: on a first pass, where that member
      has not been committed before, the team list is one short. */
  lemma AsWrittenFinishDropsMember(w: Wizard, freshId: string)
    requires Valid(w) && w.showTeam && w.teamStep == LastTeamStep
    requires MemberAnswered(w.member, AvailabilityField)
    requires w.memberIndex >= SizeOrOne(w.draft.teamSize) - 1
    requires w.memberIndex == |w.draft.teamRoles.value|
    ensures TeamNextAsWritten(w, freshId).submitted == Some(w.draft)
    ensures |TeamNextAsWritten(w, freshId).submitted.value.teamRoles.value| == w.memberIndex
    ensures |TeamNext(w, freshId).submitted.value.teamRoles.value| == w.memberIndex + 1
  {
  }

  /** A session that shows it: name, description, one objective, the
      default team size of one, a timeline, then one member's three
      answers. */
  const TraceOpening: seq<Event> := [Input(NameField, TextAnswer("P")), NextPressed("a"),
    Input(DescriptionField, TextAnswer("D")), NextPressed("a")]

  const TraceObjective: seq<Event> := [ObjectiveChanged(0, "O"), NextPressed("a")]

  const TraceClosing: seq<Event> := [NextPressed("a"), Input(TimelineField, TextAnswer("T")), NextPressed("m")]

  const TraceTeam: seq<Event> := [MemberInput(RoleAnswer("Engineer")), NextPressed("x"),
    MemberInput(ExperienceAnswer(Senior)), NextPressed("x"),
    MemberInput(AvailabilityAnswer(FullTime))]

  const TraceDraft: ProjectDraft := ProjectDraft(Some("P"), Some("D"), Some(["O"]), Some(1), Some([]), Some("T"))

  const TraceMember: TeamMember := TeamMember("m", Some("Engineer"), Some(Senior), Some(FullTime))

  /** The state after the opening: the objectives question, unanswered. */
  const TraceAtObjectives: Wizard := Initial().(step := 2, draft := TraceDraft.(objectives := Some([""]), timeline := Some("")))

  /** Where the session ends: the last question of the only member. */
  const TraceEnd: Wizard := Wizard(LastProjectStep, true, TraceDraft, TraceMember, 0, LastTeamStep)

  lemma TraceOpeningPhase()
    ensures Run(Initial(), TraceOpening) == TraceAtObjectives
  {
    var w0 := Initial();
    var w1 := w0.(draft := w0.draft.(name := Some("P")));
    assert Apply(w0, Input(NameField, TextAnswer("P"))) == w1;
    var w2 := w1.(step := 1);
    assert Apply(w1, NextPressed("a")) == w2;
    var w3 := w2.(draft := w2.draft.(description := Some("D")));
    assert Apply(w2, Input(DescriptionField, TextAnswer("D"))) == w3;
    var w4 := w3.(step := 2);
    assert Apply(w3, NextPressed("a")) == w4;
    RunSteps([w0, w1, w2, w3, w4], TraceOpening, 0);
  }

  /** The objectives question after "O" is typed into its only entry. */
  const TraceObjectiveTyped: Wizard := TraceAtObjectives.(draft := TraceAtObjectives.draft.(objectives := Some(["O"])))

  lemma TraceObjectiveEdit()
    ensures Apply(TraceAtObjectives, ObjectiveChanged(0, "O")) == TraceObjectiveTyped
  {
    assert [""][0 := "O"] == ["O"];
  }

  lemma TraceObjectiveNext()
    ensures Apply(TraceObjectiveTyped, NextPressed("a")) == TraceObjectiveTyped.(step := 3)
  {
    TraceObjectiveAnswered();
  }

  lemma TraceObjectiveAnswered()
    ensures ObjectivesAnswered(TraceObjectiveTyped.draft)
  {
    assert TraceObjectiveTyped.draft.objectives == Some(["O"]);
    SingleObjectiveAnswered(TraceObjectiveTyped.draft);
  }

  lemma SingleObjectiveAnswered(d: ProjectDraft)
    requires d.objectives == Some(["O"])
    ensures ObjectivesAnswered(d)
  {
    TrimO();
    var objectives := d.objectives.GetOr([""]);
    assert objectives == ["O"];
    forall i | 0 <= i < |objectives| ensures Trim(objectives[i]) != "" {
      assert objectives[i] == "O";
    }
  }

  lemma TrimO()
    ensures Trim("O") != ""
  {
    assert !IsWhitespace("O"[0]);
  }

  lemma TraceObjectivePhase()
    ensures Run(TraceAtObjectives, TraceObjective) == TraceAtObjectives.(step := 3, draft := TraceDraft.(timeline := Some("")))
  {
    TraceObjectiveEdit();
    TraceObjectiveNext();
    assert TraceObjectiveTyped.(step := 3) == TraceAtObjectives.(step := 3, draft := TraceDraft.(timeline := Some("")));
    RunSteps([TraceAtObjectives, TraceObjectiveTyped, TraceObjectiveTyped.(step := 3)], TraceObjective, 0);
  }


  lemma TraceClosingPhase()
    ensures Run(TraceAtObjectives.(step := 3, draft := TraceDraft.(timeline := Some(""))), TraceClosing)
            == Wizard(LastProjectStep, true, TraceDraft, FreshMember("m"), 0, 0)
  {
    var w0 := TraceAtObjectives.(step := 3, draft := TraceDraft.(timeline := Some("")));
    var w1 := w0.(step := 4);
    assert Apply(w0, NextPressed("a")) == w1;
    var w2 := w1.(draft := TraceDraft);
    assert Apply(w1, Input(TimelineField, TextAnswer("T"))) == w2;
    var w3 := w2.(showTeam := true, member := FreshMember("m"));
    assert Apply(w2, NextPressed("m")) == w3;
    RunSteps([w0, w1, w2, w3], TraceClosing, 0);
  }


  lemma TraceTeamPhase()
    ensures Run(Wizard(LastProjectStep, true, TraceDraft, FreshMember("m"), 0, 0), TraceTeam)
            == TraceEnd
  {
    var w0 := Wizard(LastProjectStep, true, TraceDraft, FreshMember("m"), 0, 0);
    var w1 := w0.(member := w0.member.(role := Some("Engineer")));
    assert Apply(w0, MemberInput(RoleAnswer("Engineer"))) == w1;
    var w2 := w1.(teamStep := 1);
    assert Apply(w1, NextPressed("x")) == w2;
    var w3 := w2.(member := w2.member.(experience := Some(Senior)));
    assert Apply(w2, MemberInput(ExperienceAnswer(Senior))) == w3;
    var w4 := w3.(teamStep := 2);
    assert Apply(w3, NextPressed("x")) == w4;
    var w5 := w4.(member := TraceMember);
    assert Apply(w4, MemberInput(AvailabilityAnswer(FullTime))) == w5;
    RunSteps([w0, w1, w2, w3, w4, w5], TraceTeam, 0);
  }

  /** After that session, pressing Next on the last question submits a
      draft whose team is empty, so the registry stores a project of one
      seat and no member; the corrected handler submits the member. */
  lemma AsWrittenFinishExample()
    ensures Run(Initial(), TraceOpening + TraceObjective + TraceClosing + TraceTeam) == TraceEnd
    ensures TeamNextAsWritten(TraceEnd, "n").submitted == Some(TraceDraft)
    ensures Registry.NewProject(TraceDraft, "p").teamSize == 1
    ensures Registry.NewProject(TraceDraft, "p").teamRoles == []
    ensures Step(TraceEnd, NextPressed("n")).submitted.Some?
    ensures Registry.NewProject(Step(TraceEnd, NextPressed("n")).submitted.value, "p").teamRoles == [TraceMember]
  {
    TraceReachesEnd();
    TraceFinish();
  }

  lemma TraceReachesEnd()
    ensures Run(Initial(), TraceOpening + TraceObjective + TraceClosing + TraceTeam) == TraceEnd
  {
    TraceOpeningPhase();
    TraceObjectivePhase();
    TraceClosingPhase();
    TraceTeamPhase();
    RunAppend(Initial(), TraceOpening, TraceObjective);
    RunAppend(Initial(), TraceOpening + TraceObjective, TraceClosing);
    RunAppend(Initial(), TraceOpening + TraceObjective + TraceClosing, TraceTeam);
  }

  lemma TraceFinish()
    ensures TeamNextAsWritten(TraceEnd, "n").submitted == Some(TraceDraft)
    ensures Registry.NewProject(TraceDraft, "p").teamSize == 1
    ensures Registry.NewProject(TraceDraft, "p").teamRoles == []
    ensures Step(TraceEnd, NextPressed("n")).submitted.Some?
    ensures Registry.NewProject(Step(TraceEnd, NextPressed("n")).submitted.value, "p").teamRoles == [TraceMember]
  {
  }

  // ---------------------------------------------------------------------
  // Skipping.

  /** From any state the form reaches, skipping submits the draft exactly
      as it stands: the member list is always present, so the stand-in
      members are never generated. */
  lemma SkipFromReachable(w: Wizard, idOf: nat -> string)
    requires Valid(w)
    ensures Skip(w, idOf) == if TruthyText(w.draft.name) then Some(w.draft) else None
  {
  }

  /** A named draft without a member list becomes a project whose team has
      one complete stand-in member per requested seat. */
  lemma SkipWithoutTeam(w: Wizard, idOf: nat -> string, id: string)
    requires TruthyText(w.draft.name) && w.draft.teamRoles.None?
    ensures var p := Registry.NewProject(Skip(w, idOf).value, id);
            && p.name == w.draft.name.value
            && |p.teamRoles| == (if SizeOrOne(w.draft.teamSize) > 0 then SizeOrOne(w.draft.teamSize) else 0)
            && (forall k :: 0 <= k < |p.teamRoles| ==> Complete(p.teamRoles[k]))
  {
  }
}
