/** The dashboard's status filter over the project list. */
module Dashboard {
  import opened Domain

  datatype StatusFilter = All | Active | Completed

  /** The entries whose `completed` flag equals `done`, in their order. */
  function KeepWhere(ps: seq<Project>, done: bool): (r: seq<Project>)
    ensures forall p :: p in r <==> p in ps && p.completed == done
    ensures |r| <= |ps|
  {
    if ps == [] then []
    else if ps[0].completed == done then [ps[0]] + KeepWhere(ps[1..], done)
    else KeepWhere(ps[1..], done)
  }

  /** `filteredProjects`: everything, the active ones or the completed ones. */
  function FilterProjects(ps: seq<Project>, f: StatusFilter): (r: seq<Project>)
    ensures f == All ==> r == ps
    ensures f == Active ==> forall p :: p in r <==> p in ps && !p.completed
    ensures f == Completed ==> forall p :: p in r <==> p in ps && p.completed
  {
    match f
    case All => ps
    case Active => KeepWhere(ps, false)
    case Completed => KeepWhere(ps, true)
  }

  /** Filtering distributes over concatenation, so kept entries stay in
      their original relative order. */
  lemma {:induction false} FilterConcat(a: seq<Project>, b: seq<Project>, f: StatusFilter)
    ensures FilterProjects(a + b, f) == FilterProjects(a, f) + FilterProjects(b, f)
  {
    if f != All {
      KeepConcat(a, b, f == Completed);
    }
  }

  lemma {:induction false} KeepConcat(a: seq<Project>, b: seq<Project>, done: bool)
    ensures KeepWhere(a + b, done) == KeepWhere(a, done) + KeepWhere(b, done)
  {
    if a == [] {
      assert a + b == b;
    } else {
      assert (a + b)[0] == a[0];
      assert (a + b)[1..] == a[1..] + b;
      KeepConcat(a[1..], b, done);
    }
  }

  /** The active and completed views split the list: together they have as
      many entries as the whole, and no entry is in both. */
  lemma {:induction false} ActiveCompletedPartition(ps: seq<Project>)
    ensures |FilterProjects(ps, Active)| + |FilterProjects(ps, Completed)| == |ps|
    ensures forall p :: p in FilterProjects(ps, Active) ==> p !in FilterProjects(ps, Completed)
  {
    if ps != [] {
      ActiveCompletedPartition(ps[1..]);
    }
  }

  /** Filtering a list whose every entry already has the wanted status
      returns it unchanged. */
  lemma {:induction false} KeepAllMatching(ps: seq<Project>, done: bool)
    requires forall i :: 0 <= i < |ps| ==> ps[i].completed == done
    ensures KeepWhere(ps, done) == ps
  {
    if ps != [] {
      assert ps[0].completed == done;
      KeepAllMatching(ps[1..], done);
      assert ps == [ps[0]] + ps[1..];
    }
  }
}
