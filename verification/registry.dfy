/** The in-memory project list of the planner hook: create with defaults,
    toggle completion, delete by id, and look-up by id. The list is an
    explicit value; every operation returns the new list. */
module Registry {
  import opened Domain

  /** Number of entries carrying the identifier `id`. */
  function CountId(ps: seq<Project>, id: string): (n: nat)
    ensures n <= |ps|
  {
    if ps == [] then 0 else (if ps[0].id == id then 1 else 0) + CountId(ps[1..], id)
  }

  predicate HasId(ps: seq<Project>, id: string) {
    exists i :: 0 <= i < |ps| && ps[i].id == id
  }

  /** The project built by `createProject`: every falsy field of the input
      falls back to its default, and the bookkeeping fields are reset. */
  function NewProject(input: ProjectDraft, id: string): (p: Project)
    ensures p.id == id
    ensures TruthyText(input.name) ==> p.name == input.name.value
    ensures !TruthyText(input.name) ==> p.name == "Untitled Project"
    ensures p.name != ""
    ensures p.description == (if input.description.Some? then input.description.value else "")
    ensures p.objectives == (if input.objectives.Some? then input.objectives.value else [])
    ensures TruthyNumber(input.teamSize) ==> p.teamSize == input.teamSize.value
    ensures !TruthyNumber(input.teamSize) ==> p.teamSize == 1
    ensures p.teamRoles == (if input.teamRoles.Some? then input.teamRoles.value else [])
    ensures p.timeline == (if input.timeline.Some? then input.timeline.value else "")
    ensures p.currentQuestion == 0 && !p.completed
  {
    Project(
      id,
      if TruthyText(input.name) then input.name.value else "Untitled Project",
      input.description.GetOr(""),
      input.objectives.GetOr([]),
      SizeOrOne(input.teamSize),
      input.teamRoles.GetOr([]),
      input.timeline.GetOr(""),
      0,
      false)
  }

  datatype Created = Created(projects: seq<Project>, project: Project)

  /** `createProject`: append the new project; `id` is the fresh identifier
      the source draws at random. */
  function Create(ps: seq<Project>, input: ProjectDraft, id: string): (c: Created)
    ensures |c.projects| == |ps| + 1
    ensures c.projects[..|ps|] == ps
    ensures c.projects[|ps|] == c.project
    ensures c.project.id == id && !c.project.completed
  {
    var p := NewProject(input, id);
    Created(ps + [p], p)
  }

  /** `projects.find(p => p.id === id)`: the first entry with that id. */
  function Find(ps: seq<Project>, id: string): (r: Option<Project>)
    ensures r.Some? <==> HasId(ps, id)
    ensures r.Some? ==> exists i :: 0 <= i < |ps| && ps[i] == r.value && r.value.id == id
                                    && forall j :: 0 <= j < i ==> ps[j].id != id
  {
    if ps == [] then None
    else if ps[0].id == id then Some(ps[0])
    else
      var r := Find(ps[1..], id);
      if r.Some? then
        var k :| 0 <= k < |ps[1..]| && ps[1..][k] == r.value && r.value.id == id
                 && forall j :: 0 <= j < k ==> ps[1..][j].id != id;
        assert ps[k + 1] == r.value;
        r
      else r
  }

  /** The entry `toggleProjectCompletion` produces from `p`. */
  function Flip(p: Project, id: string): Project {
    if p.id == id then p.(completed := !p.completed) else p
  }

  /** `toggleProjectCompletion`: flip `completed` on every entry with the id. */
  function Toggle(ps: seq<Project>, id: string): (r: seq<Project>)
    ensures |r| == |ps|
    ensures forall i :: 0 <= i < |ps| ==>
              r[i].(completed := ps[i].completed) == ps[i]
              && (r[i].completed != ps[i].completed <==> ps[i].id == id)
  {
    if ps == [] then [] else [Flip(ps[0], id)] + Toggle(ps[1..], id)
  }

  /** `deleteProject`: keep the entries whose id differs. */
  function Delete(ps: seq<Project>, id: string): (r: seq<Project>)
    ensures forall p :: p in r <==> p in ps && p.id != id
    ensures |r| == |ps| - CountId(ps, id)
  {
    if ps == [] then []
    else if ps[0].id == id then Delete(ps[1..], id)
    else [ps[0]] + Delete(ps[1..], id)
  }

  lemma {:induction false} ToggleUnknownId(ps: seq<Project>, id: string)
    requires !HasId(ps, id)
    ensures Toggle(ps, id) == ps
  {
    if ps != [] {
      assert !HasId(ps[1..], id) by {
        forall i | 0 <= i < |ps[1..]| ensures ps[1..][i].id != id {
          assert ps[1..][i] == ps[i + 1];
        }
      }
      ToggleUnknownId(ps[1..], id);
      assert ps[0].id != id;
      assert ps == [ps[0]] + ps[1..];
    }
  }

  lemma {:induction false} ToggleTwice(ps: seq<Project>, id: string)
    ensures Toggle(Toggle(ps, id), id) == ps
  {
    if ps != [] {
      var t := Toggle(ps, id);
      assert t[1..] == Toggle(ps[1..], id);
      ToggleTwice(ps[1..], id);
      assert ps == [ps[0]] + ps[1..];
    }
  }

  /** Toggling keeps every identifier, so look-ups find the same entry,
      flipped when its id is the toggled one. */
  lemma {:induction false} FindAfterToggle(ps: seq<Project>, x: string, id: string)
    ensures Find(Toggle(ps, x), id) == (match Find(ps, id)
                                        case None => None
                                        case Some(p) => Some(Flip(p, x)))
  {
    if ps != [] {
      var t := Toggle(ps, x);
      assert t[0] == Flip(ps[0], x);
      assert t[1..] == Toggle(ps[1..], x);
      FindAfterToggle(ps[1..], x, id);
    }
  }

  lemma {:induction false} DeleteUnknownId(ps: seq<Project>, id: string)
    requires !HasId(ps, id)
    ensures Delete(ps, id) == ps
  {
    if ps != [] {
      assert ps[0].id != id;
      assert !HasId(ps[1..], id) by {
        forall i | 0 <= i < |ps[1..]| ensures ps[1..][i].id != id {
          assert ps[1..][i] == ps[i + 1];
        }
      }
      DeleteUnknownId(ps[1..], id);
      assert ps == [ps[0]] + ps[1..];
    }
  }

  lemma DeleteIdempotent(ps: seq<Project>, id: string)
    ensures Delete(Delete(ps, id), id) == Delete(ps, id)
  {
    var d := Delete(ps, id);
    assert !HasId(d, id) by {
      forall i | 0 <= i < |d| ensures d[i].id != id {
        assert d[i] in d;
      }
    }
    DeleteUnknownId(d, id);
  }

  /** Deletion distributes over concatenation, so the survivors keep their
      relative order. */
  lemma {:induction false} DeleteConcat(a: seq<Project>, b: seq<Project>, id: string)
    ensures Delete(a + b, id) == Delete(a, id) + Delete(b, id)
  {
    if a != [] {
      assert (a + b)[0] == a[0];
      assert (a + b)[1..] == a[1..] + b;
      DeleteConcat(a[1..], b, id);
    } else {
      assert a + b == b;
    }
  }

  /** Creating a project under a fresh id and deleting that id restores the
      list. */
  lemma CreateThenDelete(ps: seq<Project>, input: ProjectDraft, id: string)
    requires !HasId(ps, id)
    ensures Delete(Create(ps, input, id).projects, id) == ps
  {
    var c := Create(ps, input, id);
    assert c.projects == ps + [c.project];
    DeleteConcat(ps, [c.project], id);
    DeleteUnknownId(ps, id);
    assert Delete([c.project], id) == [];
  }

  /** After creating under a fresh id, a look-up of that id returns the new
      project. */
  lemma {:induction false} FindCreated(ps: seq<Project>, input: ProjectDraft, id: string)
    requires !HasId(ps, id)
    ensures Find(Create(ps, input, id).projects, id) == Some(NewProject(input, id))
  {
    var c := Create(ps, input, id);
    if ps == [] {
      assert c.projects == [c.project];
    } else {
      assert ps[0].id != id;
      assert c.projects[1..] == Create(ps[1..], input, id).projects;
      assert !HasId(ps[1..], id) by {
        forall i | 0 <= i < |ps[1..]| ensures ps[1..][i].id != id {
          assert ps[1..][i] == ps[i + 1];
        }
      }
      FindCreated(ps[1..], input, id);
    }
  }
}
