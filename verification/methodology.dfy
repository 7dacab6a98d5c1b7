/** The methodology scorer: four clamped integer scores over the team's size
    and composition, returned as a ranking sorted by descending suitability.

    The ranking uses the host's `Array.prototype.sort`, which is stable, so
    methodologies with equal scores keep the catalogue order Agile, Scrum,
    Kanban, Waterfall. */
module Methodology {
  import opened Domain
  import Registry

  datatype MethodologyId = AgileId | ScrumId | KanbanId | WaterfallId

  /** A scored methodology. Its name, description, benefits and challenges
      are fixed per methodology and are read through its id. */
  datatype Methodology = Methodology(id: MethodologyId, suitability: int) {
    function Name(): string { NameOf(id) }
    function Description(): string { DescriptionOf(id) }
    function Benefits(): seq<string> { BenefitsOf(id) }
    function Challenges(): seq<string> { ChallengesOf(id) }
  }

  /** Position of a methodology in the catalogue the scorer builds. */
  function Rank(id: MethodologyId): nat {
    match id
    case AgileId => 0
    case ScrumId => 1
    case KanbanId => 2
    case WaterfallId => 3
  }

  /** `Math.min(Math.max(score, 0), 100)`. */
  function Clamp(score: int): (r: int)
    ensures 0 <= r <= 100
    ensures 0 <= score <= 100 ==> r == score
    ensures score < 0 ==> r == 0
    ensures score > 100 ==> r == 100
  {
    if score < 0 then 0 else if score > 100 then 100 else score
  }

  function CountExperience(ms: seq<TeamMember>, e: Experience): (n: nat)
    ensures n <= |ms|
  {
    if ms == [] then 0
    else (if ms[0].experience == Some(e) then 1 else 0) + CountExperience(ms[1..], e)
  }

  function CountAvailability(ms: seq<TeamMember>, a: Availability): (n: nat)
    ensures n <= |ms|
  {
    if ms == [] then 0
    else (if ms[0].availability == Some(a) then 1 else 0) + CountAvailability(ms[1..], a)
  }

  function AgileScore(p: Project): (r: int)
    ensures 0 <= r <= 100
  {
    var size := p.teamSize;
    var small := if size <= 5 then 10 else 0;
    var large := if size > 10 then 10 else 0;
    Clamp(75 + small - large
          + 2 * CountExperience(p.teamRoles, Senior)
          - 3 * CountAvailability(p.teamRoles, Contractor))
  }

  function ScrumScore(p: Project): (r: int)
    ensures 55 <= r <= 100
  {
    var size := p.teamSize;
    var medium := if 3 <= size <= 9 then 15 else 0;
    var off := if size < 3 || size > 12 then 15 else 0;
    Clamp(70 + medium - off + 2 * CountAvailability(p.teamRoles, FullTime))
  }

  function KanbanScore(p: Project): (r: int)
    ensures 65 <= r <= 100
  {
    var small := if p.teamSize <= 5 then 10 else 0;
    Clamp(65 + small + 3 * CountAvailability(p.teamRoles, PartTime))
  }

  function WaterfallScore(p: Project): (r: int)
    ensures 50 <= r <= 100
  {
    var large := if p.teamSize > 15 then 10 else 0;
    Clamp(50 + large + 2 * CountExperience(p.teamRoles, Junior))
  }

  function NameOf(id: MethodologyId): string {
    match id
    case AgileId => "Agile"
    case ScrumId => "Scrum"
    case KanbanId => "Kanban"
    case WaterfallId => "Waterfall"
  }

  function DescriptionOf(id: MethodologyId): string {
    match id
    case AgileId => "Iterative approach focused on collaboration, customer feedback, and small, rapid releases."
    case ScrumId => "Framework within Agile with defined roles, ceremonies, and artifacts for iterative development."
    case KanbanId => "Visual workflow management focused on limiting work in progress and maximizing flow."
    case WaterfallId => "Sequential design process where progress flows downwards through phases."
  }

  function BenefitsOf(id: MethodologyId): seq<string> {
    match id
    case AgileId => ["Adaptable to changing requirements", "Faster delivery of features", "Better stakeholder engagement"]
    case ScrumId => ["Clear structure and roles", "Regular planning and review", "Improved team synchronization"]
    case KanbanId => ["Visualizes workflow clearly", "Limits work in progress", "Flexible scheduling and priorities"]
    case WaterfallId => ["Clear project phases and deliverables", "Easy to understand and manage", "Thorough documentation"]
  }

  function ChallengesOf(id: MethodologyId): seq<string> {
    match id
    case AgileId => ["Requires regular communication", "May need experienced team members", "Documentation might be less comprehensive"]
    case ScrumId => ["Requires dedicated Scrum Master", "Daily meetings may be overhead for small teams", "May be rigid for very small projects"]
    case KanbanId => ["Less structured timeboxing", "May lack the ceremony benefits of Scrum", "Can be hard to forecast completion dates"]
    case WaterfallId => ["Difficult to incorporate changes mid-project", "Testing occurs late in the process", "Higher risk of rework"]
  }

  /** The four methodologies with their scores, in the order the scorer
      lists them before sorting. */
  function Catalogue(p: Project): (r: seq<Methodology>)
    ensures |r| == 4
    ensures forall i :: 0 <= i < 4 ==> Rank(r[i].id) == i && 0 <= r[i].suitability <= 100
  {
    [
      Methodology(AgileId, AgileScore(p)),
      Methodology(ScrumId, ScrumScore(p)),
      Methodology(KanbanId, KanbanScore(p)),
      Methodology(WaterfallId, WaterfallScore(p))
    ]
  }

  // ---------------------------------------------------------------------
  // Stable sort by descending suitability.

  predicate SortedDesc(ms: seq<Methodology>) {
    forall i, j :: 0 <= i < j < |ms| ==> ms[i].suitability >= ms[j].suitability
  }

  /** Entries with equal suitability appear in catalogue order. */
  predicate TiesInRankOrder(ms: seq<Methodology>) {
    forall i, j :: 0 <= i < j < |ms| && ms[i].suitability == ms[j].suitability ==> Rank(ms[i].id) < Rank(ms[j].id)
  }

  predicate RanksIncreasing(ms: seq<Methodology>) {
    forall i, j :: 0 <= i < j < |ms| ==> Rank(ms[i].id) < Rank(ms[j].id)
  }

  /** Insert `x` before the first entry whose suitability does not exceed
      its own. */
  function Insert(x: Methodology, ms: seq<Methodology>): (r: seq<Methodology>)
    ensures multiset(r) == multiset(ms) + multiset{x}
  {
    if ms == [] || ms[0].suitability <= x.suitability then [x] + ms
    else
      assert ms == [ms[0]] + ms[1..];
      [ms[0]] + Insert(x, ms[1..])
  }

  /** A head no lower than any later entry keeps a descending list
      descending. */
  lemma SortedCons(h: Methodology, rest: seq<Methodology>)
    requires SortedDesc(rest)
    requires forall y :: y in rest ==> h.suitability >= y.suitability
    ensures SortedDesc([h] + rest)
  {
    var r := [h] + rest;
    forall i, j | 0 <= i < j < |r| ensures r[i].suitability >= r[j].suitability {
      if i == 0 {
        assert r[j] == rest[j - 1];
        assert r[j] in rest;
      } else {
        assert r[i] == rest[i - 1] && r[j] == rest[j - 1];
      }
    }
  }

  /** Dropping the head keeps a list descending. */
  lemma SortedTail(ms: seq<Methodology>)
    requires ms != [] && SortedDesc(ms)
    ensures SortedDesc(ms[1..])
    ensures forall y :: y in ms[1..] ==> ms[0].suitability >= y.suitability
  {
    var tail := ms[1..];
    forall i, j | 0 <= i < j < |tail| ensures tail[i].suitability >= tail[j].suitability {
      assert tail[i] == ms[i + 1] && tail[j] == ms[j + 1];
    }
    forall y | y in tail ensures ms[0].suitability >= y.suitability {
      var k :| 0 <= k < |tail| && tail[k] == y;
      assert ms[k + 1] == y;
    }
  }

  lemma {:induction false} InsertSorted(x: Methodology, ms: seq<Methodology>)
    requires SortedDesc(ms)
    ensures SortedDesc(Insert(x, ms))
  {
    if ms == [] || ms[0].suitability <= x.suitability {
      if ms != [] {
        SortedTail(ms);
        assert forall y :: y in ms ==> y == ms[0] || y in ms[1..];
      }
      SortedCons(x, ms);
    } else {
      var tail := ms[1..];
      SortedTail(ms);
      InsertSorted(x, tail);
      var rest := Insert(x, tail);
      forall y | y in rest ensures ms[0].suitability >= y.suitability {
        assert y in multiset(rest);
        if y != x {
          assert y in multiset(tail);
        }
      }
      SortedCons(ms[0], rest);
    }
  }

  /** Insertion sort by descending suitability; stable. */
  function SortBySuitability(ms: seq<Methodology>): (r: seq<Methodology>)
    ensures multiset(r) == multiset(ms)
    ensures SortedDesc(r)
  {
    if ms == [] then []
    else
      assert ms == [ms[0]] + ms[1..];
      var sorted := SortBySuitability(ms[1..]);
      InsertSorted(ms[0], sorted);
      Insert(ms[0], sorted)
  }

  /** Dropping the head keeps equal scores in catalogue order. */
  lemma TieOrderTail(ms: seq<Methodology>)
    requires ms != [] && TiesInRankOrder(ms)
    ensures TiesInRankOrder(ms[1..])
  {
    var tail := ms[1..];
    forall i, j | 0 <= i < j < |tail| && tail[i].suitability == tail[j].suitability
      ensures Rank(tail[i].id) < Rank(tail[j].id)
    {
      assert tail[i] == ms[i + 1] && tail[j] == ms[j + 1];
    }
  }

  /** A head that precedes every later entry of equal score keeps equal
      scores in catalogue order. */
  lemma TieOrderCons(h: Methodology, rest: seq<Methodology>)
    requires TiesInRankOrder(rest)
    requires forall y :: y in rest && y.suitability == h.suitability ==> Rank(h.id) < Rank(y.id)
    ensures TiesInRankOrder([h] + rest)
  {
    var r := [h] + rest;
    forall i, j | 0 <= i < j < |r| && r[i].suitability == r[j].suitability
      ensures Rank(r[i].id) < Rank(r[j].id)
    {
      if i == 0 {
        assert r[j] == rest[j - 1];
        assert r[j] in rest;
      } else {
        assert r[i] == rest[i - 1] && r[j] == rest[j - 1];
      }
    }
  }

  lemma {:induction false} InsertKeepsTieOrder(x: Methodology, ms: seq<Methodology>)
    requires TiesInRankOrder(ms)
    requires forall y :: y in ms ==> Rank(x.id) < Rank(y.id)
    ensures TiesInRankOrder(Insert(x, ms))
  {
    if ms == [] || ms[0].suitability <= x.suitability {
      TieOrderCons(x, ms);
    } else {
      var tail := ms[1..];
      TieOrderTail(ms);
      InsertKeepsTieOrder(x, tail);
      var rest := Insert(x, tail);
      forall y | y in rest && y.suitability == ms[0].suitability
        ensures Rank(ms[0].id) < Rank(y.id)
      {
        assert y in multiset(rest);
        if y != x {
          assert y in multiset(tail);
          var k :| 0 <= k < |tail| && tail[k] == y;
          assert ms[k + 1] == y;
        }
      }
      TieOrderCons(ms[0], rest);
    }
  }

  /** Sorting a list given in strictly increasing catalogue order leaves
      equal-score entries in catalogue order. */
  lemma {:induction false} SortKeepsTieOrder(ms: seq<Methodology>)
    requires RanksIncreasing(ms)
    ensures TiesInRankOrder(SortBySuitability(ms))
  {
    if ms != [] {
      var tail := ms[1..];
      assert RanksIncreasing(tail) by {
        forall i, j | 0 <= i < j < |tail| ensures Rank(tail[i].id) < Rank(tail[j].id) {
          assert tail[i] == ms[i + 1] && tail[j] == ms[j + 1];
        }
      }
      SortKeepsTieOrder(tail);
      var sorted := SortBySuitability(tail);
      forall y | y in sorted ensures Rank(ms[0].id) < Rank(y.id) {
        assert y in multiset(sorted);
        assert y in multiset(tail);
        var k :| 0 <= k < |tail| && tail[k] == y;
        assert ms[k + 1] == y;
      }
      InsertKeepsTieOrder(ms[0], sorted);
    }
  }

  /** The ranking for one project: all four methodologies, each once, by
      descending suitability, ties in catalogue order. */
  function Recommend(p: Project): (r: seq<Methodology>)
    ensures |r| == 4
    ensures multiset(r) == multiset(Catalogue(p))
    ensures SortedDesc(r)
  {
    SortBySuitability(Catalogue(p))
  }

  /** `generateMethodologyRecommendations`: the ranking for the project with
      the given id, or nothing when there is none. */
  function Recommendations(ps: seq<Project>, id: string): (r: seq<Methodology>)
    ensures !Registry.HasId(ps, id) ==> r == []
    ensures Registry.HasId(ps, id) ==> |r| == 4 && SortedDesc(r)
    ensures Registry.HasId(ps, id) ==> multiset(r) == multiset(Catalogue(Registry.Find(ps, id).value))
  {
    match Registry.Find(ps, id)
    case None => []
    case Some(p) => Recommend(p)
  }

  /** Every methodology appears exactly once in a ranking, each score lies
      in [0, 100], and ties keep the catalogue order. */
  lemma RecommendIsRanking(p: Project)
    ensures var r := Recommend(p);
            && (set i | 0 <= i < 4 :: r[i].id) == {AgileId, ScrumId, KanbanId, WaterfallId}
            && (forall i, j :: 0 <= i < j < 4 ==> r[i].id != r[j].id)
            && (forall i :: 0 <= i < 4 ==> 0 <= r[i].suitability <= 100)
            && TiesInRankOrder(r)
  {
    SortedCatalogueIsRanking(Catalogue(p));
  }

  /** The recommendations for a stored project rank that project's four
      scores: every methodology once, ties in catalogue order. */
  lemma RecommendationsAreRanking(ps: seq<Project>, id: string)
    requires Registry.HasId(ps, id)
    ensures var r := Recommendations(ps, id);
            && r == Recommend(Registry.Find(ps, id).value)
            && (set i | 0 <= i < 4 :: r[i].id) == {AgileId, ScrumId, KanbanId, WaterfallId}
            && (forall i, j :: 0 <= i < j < 4 ==> r[i].id != r[j].id)
            && (forall i :: 0 <= i < 4 ==> 0 <= r[i].suitability <= 100)
            && TiesInRankOrder(r)
  {
    RecommendIsRanking(Registry.Find(ps, id).value);
  }

  /** Sorting four entries listed in catalogue order yields each id once,
      keeps the scores, and leaves ties in catalogue order. */
  lemma SortedCatalogueIsRanking(c: seq<Methodology>)
    requires |c| == 4
    requires forall i :: 0 <= i < 4 ==> Rank(c[i].id) == i && 0 <= c[i].suitability <= 100
    ensures var r := SortBySuitability(c);
            && |r| == 4
            && (set i | 0 <= i < 4 :: r[i].id) == {AgileId, ScrumId, KanbanId, WaterfallId}
            && (forall i, j :: 0 <= i < j < 4 ==> r[i].id != r[j].id)
            && (forall i :: 0 <= i < 4 ==> 0 <= r[i].suitability <= 100)
            && TiesInRankOrder(r)
  {
    var r := SortBySuitability(c);
    assert |r| == |multiset(r)| == |multiset(c)| == 4;
    assert RanksIncreasing(c);
    SortKeepsTieOrder(c);
    PermutationKeepsIdsDistinct(c, r);
    PermutationKeepsIdSet(c, r);
    forall i | 0 <= i < 4 ensures 0 <= r[i].suitability <= 100 {
      assert r[i] in multiset(c);
    }
  }

  /** A permutation of the four catalogue entries names every methodology. */
  lemma PermutationKeepsIdSet(c: seq<Methodology>, r: seq<Methodology>)
    requires |c| == 4 && |r| == 4
    requires forall i :: 0 <= i < 4 ==> Rank(c[i].id) == i
    requires multiset(r) == multiset(c)
    ensures (set i | 0 <= i < 4 :: r[i].id) == {AgileId, ScrumId, KanbanId, WaterfallId}
  {
    var ids := set i | 0 <= i < 4 :: r[i].id;
    forall k | 0 <= k < 4 ensures c[k].id in ids {
      assert c[k] in multiset(r);
      var i :| 0 <= i < |r| && r[i] == c[k];
    }
    assert c[0].id == AgileId && c[1].id == ScrumId && c[2].id == KanbanId && c[3].id == WaterfallId;
  }

  /** A permutation of a list with distinct ids has distinct ids. */
  lemma PermutationKeepsIdsDistinct(c: seq<Methodology>, r: seq<Methodology>)
    requires RanksIncreasing(c)
    requires multiset(r) == multiset(c)
    ensures forall i, j :: 0 <= i < j < |r| ==> r[i].id != r[j].id
  {
    forall i, j | 0 <= i < j < |r| ensures r[i].id != r[j].id {
      if r[i].id == r[j].id {
        assert r[i] in multiset(c) && r[j] in multiset(c);
        var a :| 0 <= a < |c| && c[a] == r[i];
        var b :| 0 <= b < |c| && c[b] == r[j];
        assert a == b;
        MultisetCountTwo(r, i, j);
        CatalogueEntryOnce(c, a);
        assert false;
      }
    }
  }

  lemma MultisetCountTwo(s: seq<Methodology>, i: int, j: int)
    requires 0 <= i < j < |s| && s[i] == s[j]
    ensures multiset(s)[s[i]] >= 2
  {
    assert s == s[..i] + [s[i]] + s[i + 1..j] + [s[j]] + s[j + 1..];
  }

  lemma CatalogueEntryOnce(c: seq<Methodology>, a: int)
    requires RanksIncreasing(c) && 0 <= a < |c|
    ensures multiset(c)[c[a]] == 1
  {
    var before := c[..a];
    var after := c[a + 1..];
    assert c == before + [c[a]] + after;
    assert c[a] !in before by {
      forall k | 0 <= k < a ensures before[k] != c[a] { assert before[k] == c[k]; }
    }
    assert c[a] !in after by {
      forall k | 0 <= k < |after| ensures after[k] != c[a] { assert after[k] == c[a + 1 + k]; }
    }
  }

  // ---------------------------------------------------------------------
  // How the scores respond to the team.

  lemma {:induction false} CountExperienceAppend(ms: seq<TeamMember>, m: TeamMember, e: Experience)
    ensures CountExperience(ms + [m], e) == CountExperience(ms, e) + (if m.experience == Some(e) then 1 else 0)
  {
    if ms != [] {
      assert (ms + [m])[1..] == ms[1..] + [m];
      CountExperienceAppend(ms[1..], m, e);
    }
  }

  lemma {:induction false} CountAvailabilityAppend(ms: seq<TeamMember>, m: TeamMember, a: Availability)
    ensures CountAvailability(ms + [m], a) == CountAvailability(ms, a) + (if m.availability == Some(a) then 1 else 0)
  {
    if ms != [] {
      assert (ms + [m])[1..] == ms[1..] + [m];
      CountAvailabilityAppend(ms[1..], m, a);
    }
  }

  /** With the team size fixed, one more member never lowers the Scrum,
      Kanban or Waterfall score; it raises or keeps Agile for a senior who
      is not a contractor, and lowers or keeps it for a contractor who is
      not senior. */
  lemma AddingMember(p: Project, m: TeamMember)
    ensures var q := p.(teamRoles := p.teamRoles + [m]);
            && ScrumScore(q) >= ScrumScore(p)
            && KanbanScore(q) >= KanbanScore(p)
            && WaterfallScore(q) >= WaterfallScore(p)
            && (m.experience == Some(Senior) && m.availability != Some(Contractor) ==> AgileScore(q) >= AgileScore(p))
            && (m.availability == Some(Contractor) && m.experience != Some(Senior) ==> AgileScore(q) <= AgileScore(p))
  {
    CountExperienceAppend(p.teamRoles, m, Senior);
    CountExperienceAppend(p.teamRoles, m, Junior);
    CountAvailabilityAppend(p.teamRoles, m, Contractor);
    CountAvailabilityAppend(p.teamRoles, m, FullTime);
    CountAvailabilityAppend(p.teamRoles, m, PartTime);
  }

  /** The ranking depends on the team size and the members only, so the
      same team always gets the same ranking. */
  lemma RankingDependsOnTeamOnly(p: Project, q: Project)
    requires p.teamSize == q.teamSize && p.teamRoles == q.teamRoles
    ensures Recommend(p) == Recommend(q)
  {
    assert AgileScore(p) == AgileScore(q);
    assert ScrumScore(p) == ScrumScore(q);
    assert KanbanScore(p) == KanbanScore(q);
    assert WaterfallScore(p) == WaterfallScore(q);
    assert Catalogue(p) == Catalogue(q);
  }

  /** Toggling any project's completion leaves every ranking unchanged. */
  lemma RecommendationsIgnoreToggle(ps: seq<Project>, x: string, id: string)
    ensures Recommendations(Registry.Toggle(ps, x), id) == Recommendations(ps, id)
  {
    Registry.FindAfterToggle(ps, x, id);
    var t := Registry.Toggle(ps, x);
    match Registry.Find(ps, id)
    case None =>
      assert Registry.Find(t, id) == None;
    case Some(p) =>
      assert Registry.Find(t, id) == Some(Registry.Flip(p, x));
      RankingDependsOnTeamOnly(p, Registry.Flip(p, x));
      assert Recommendations(t, id) == Recommend(Registry.Flip(p, x));
  }

  function Member(id: string, e: Experience, a: Availability): TeamMember {
    TeamMember(id, Some("Engineer"), Some(e), Some(a))
  }

  /** Six full-time members: three senior, two mid-level, one junior. */
  function SixPersonTeam(): seq<TeamMember> {
    [Member("a", Senior, FullTime), Member("b", Senior, FullTime), Member("c", Senior, FullTime),
     Member("d", MidLevel, FullTime), Member("e", MidLevel, FullTime), Member("f", Junior, FullTime)]
  }

  /** For any project with that team: Scrum 97, Agile 81, Kanban 65,
      Waterfall 52, ranked in that order. */
  lemma SixPersonTeamRanking(p: Project)
    requires p.teamSize == 6 && p.teamRoles == SixPersonTeam()
    ensures Recommend(p) == [Methodology(ScrumId, 97), Methodology(AgileId, 81),
                             Methodology(KanbanId, 65), Methodology(WaterfallId, 52)]
  {
    SixPersonTeamScores(p);
    SixPersonTeamSort();
  }

  lemma SixPersonTeamScores(p: Project)
    requires p.teamSize == 6 && p.teamRoles == SixPersonTeam()
    ensures Catalogue(p) == [Methodology(AgileId, 81), Methodology(ScrumId, 97),
                             Methodology(KanbanId, 65), Methodology(WaterfallId, 52)]
  {
    var team := SixPersonTeam();
    assert CountExperience(team, Senior) == 3;
    assert CountExperience(team, Junior) == 1;
    assert CountAvailability(team, FullTime) == 6;
    assert CountAvailability(team, PartTime) == 0;
    assert CountAvailability(team, Contractor) == 0;
  }

  lemma SixPersonTeamSort()
    ensures SortBySuitability([Methodology(AgileId, 81), Methodology(ScrumId, 97),
                               Methodology(KanbanId, 65), Methodology(WaterfallId, 52)])
            == [Methodology(ScrumId, 97), Methodology(AgileId, 81),
                Methodology(KanbanId, 65), Methodology(WaterfallId, 52)]
  {
    var a, sc, k, w := Methodology(AgileId, 81), Methodology(ScrumId, 97), Methodology(KanbanId, 65), Methodology(WaterfallId, 52);
    SixPersonTeamSortTail();
    SixPersonTeamInsertAgile();
    assert [a, sc, k, w][1..] == [sc, k, w];
  }

  lemma SixPersonTeamSortTail()
    ensures SortBySuitability([Methodology(ScrumId, 97), Methodology(KanbanId, 65), Methodology(WaterfallId, 52)])
            == [Methodology(ScrumId, 97), Methodology(KanbanId, 65), Methodology(WaterfallId, 52)]
  {
    var sc, k, w := Methodology(ScrumId, 97), Methodology(KanbanId, 65), Methodology(WaterfallId, 52);
    SixPersonTeamSortLast();
    assert [sc, k, w][1..] == [k, w];
    assert Insert(sc, [k, w]) == [sc, k, w];
  }

  lemma SixPersonTeamSortLast()
    ensures SortBySuitability([Methodology(KanbanId, 65), Methodology(WaterfallId, 52)])
            == [Methodology(KanbanId, 65), Methodology(WaterfallId, 52)]
  {
    var k, w := Methodology(KanbanId, 65), Methodology(WaterfallId, 52);
    assert [w][1..] == [];
    assert SortBySuitability([w]) == [w];
    assert [k, w][1..] == [w];
    assert Insert(k, [w]) == [k, w];
  }

  lemma SixPersonTeamInsertAgile()
    ensures Insert(Methodology(AgileId, 81), [Methodology(ScrumId, 97), Methodology(KanbanId, 65), Methodology(WaterfallId, 52)])
            == [Methodology(ScrumId, 97), Methodology(AgileId, 81), Methodology(KanbanId, 65), Methodology(WaterfallId, 52)]
  {
    var a, sc, k, w := Methodology(AgileId, 81), Methodology(ScrumId, 97), Methodology(KanbanId, 65), Methodology(WaterfallId, 52);
    assert Insert(a, [k, w]) == [a, k, w];
    assert [sc, k, w][1..] == [k, w];
    assert Insert(a, [sc, k, w]) == [sc] + Insert(a, [k, w]);
    assert [sc] + [a, k, w] == [sc, a, k, w];
  }
}
