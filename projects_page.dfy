/**
 * The project list of the projects page: a filter chosen by a key, then
 * `Array.prototype.sort` with a comparator chosen by a second key. The sort
 * works in place, and with the filter `all` the array it reorders is the
 * shared project list itself.
 */
module ProjectsPage {
  import opened Js
  import opened MockData
  import opened ArraySort

  /** The filter predicate; a key the switch does not name (including `all`) keeps everything. */
  function Keep(filter: string, viewer: Option<string>, p: Project): bool {
    if filter == "voting" then p.stage == Voting
    else if filter == "funding" then p.stage == Funding
    else if filter == "active" then p.stage == Active
    else if filter == "my-projects" then
      // `isConnected && address && ...`: the empty address is falsy.
      viewer.Some? && viewer.value != "" && EqualsIgnoringCase(p.owner, viewer.value)
    else true
  }

  /** The filter callback as a function value, so every use names the same one. */
  function KeepFn(filter: string, viewer: Option<string>): (keep: Project -> bool)
    ensures forall p :: keep(p) == Keep(filter, viewer, p)
  {
    p => Keep(filter, viewer, p)
  }

  /** `mockProjects.filter(...)` for a filter key and the connected address, if any. */
  function FilterProjects(projects: seq<Project>, filter: string, viewer: Option<string>): seq<Project> {
    Filter(KeepFn(filter, viewer), projects)
  }

  predicate IsKnownFilter(filter: string) {
    filter in {"voting", "funding", "active", "my-projects"}
  }

  /** The stage a stage filter selects. */
  function StageOf(filter: string): Stage
    requires filter in {"voting", "funding", "active"}
  {
    if filter == "voting" then Voting else if filter == "funding" then Funding else Active
  }

  /** A stage filter keeps a project exactly when it is in that stage. */
  lemma StageFilterMembership(projects: seq<Project>, filter: string, viewer: Option<string>, p: Project)
    requires filter in {"voting", "funding", "active"}
    ensures p in FilterProjects(projects, filter, viewer) <==> p in projects && p.stage == StageOf(filter)
  {
    FilterMembership(KeepFn(filter, viewer), projects, p);
  }

  /**
   * `my-projects` keeps a project exactly when a non-empty address is connected
   * and the project's owner equals it ignoring case.
   */
  lemma MyProjectsMembership(projects: seq<Project>, viewer: Option<string>, p: Project)
    ensures p in FilterProjects(projects, "my-projects", viewer) <==>
      p in projects && viewer.Some? && viewer.value != "" && EqualsIgnoringCase(p.owner, viewer.value)
  {
    FilterMembership(KeepFn("my-projects", viewer), projects, p);
  }

  /** A viewer with no connected address sees no projects under `my-projects`. */
  lemma MyProjectsDisconnected(projects: seq<Project>)
    ensures FilterProjects(projects, "my-projects", None) == []
  {
    FilterNone(KeepFn("my-projects", None), projects);
  }

  /** `all`, and any key the switch does not name, keeps every project in order. */
  lemma UnknownFilterKeepsAll(projects: seq<Project>, filter: string, viewer: Option<string>)
    requires !IsKnownFilter(filter)
    ensures FilterProjects(projects, filter, viewer) == projects
  {
    FilterAll(KeepFn(filter, viewer), projects);
  }

  /**
   * The profile's `postedProjects` (an exact owner match) lists a subset of what
   * `my-projects` shows the same address (a case-insensitive match).
   */
  lemma PostedProjectsWithinMyProjects(projects: seq<Project>, owner: string, p: Project)
    requires owner != ""
    requires p in PostedProjects(projects, owner)
    ensures p in FilterProjects(projects, "my-projects", Some(owner))
  {
    PostedProjectsMembership(projects, owner, p);
    MyProjectsMembership(projects, Some(owner), p);
  }

  /** The converse fails: an owner written in other letter case is shown by one and not the other. */
  lemma MyProjectsWiderThanPosted(p: Project)
    requires p.owner == "0xAB"
    ensures p in FilterProjects([p], "my-projects", Some("0xab"))
    ensures p !in PostedProjects([p], "0xab")
  {
    assert ToLowerCase("0xAB") == "0xab";
    assert ToLowerCase("0xab") == "0xab";
    MyProjectsMembership([p], Some("0xab"), p);
    PostedProjectsMembership([p], "0xab", p);
  }

  // ---------------------------------------------------------------------------
  // Sorting. `dateKey` stands for `new Date(createdAt).getTime()`.
  // ---------------------------------------------------------------------------

  /** The sort comparator: negative puts `a` first, positive puts `b` first. */
  function Compare(sortBy: string, dateKey: string -> int, a: Project, b: Project): int {
    if sortBy == "most-voted" then OrNumber(b.votes, 0) - OrNumber(a.votes, 0)
    else if sortBy == "newest" then dateKey(b.createdAt) - dateKey(a.createdAt)
    else if sortBy == "near-goal" then
      if a.stage == Funding && b.stage == Funding
      then OrNumber(b.fundingPercentage, 0) - OrNumber(a.fundingPercentage, 0)
      else 0
    else 0
  }

  /** The quantity a sort key orders by, largest first. */
  function Rank(sortBy: string, dateKey: string -> int, p: Project): int {
    if sortBy == "most-voted" then p.votes.GetOr(0)
    else if sortBy == "newest" then dateKey(p.createdAt)
    else p.fundingPercentage.GetOr(0)
  }

  /** The keys whose comparator is a consistent order on every pair of projects. */
  predicate IsRankedKey(sortBy: string) {
    sortBy == "most-voted" || sortBy == "newest"
  }

  /** Swapping the arguments negates the comparator, for every key. */
  lemma CompareAntisymmetric(sortBy: string, dateKey: string -> int, a: Project, b: Project)
    ensures Compare(sortBy, dateKey, a, b) == -Compare(sortBy, dateKey, b, a)
  {
  }

  /** Under a ranked key, and between two funding projects under `near-goal`, the comparator compares ranks. */
  lemma CompareByRank(sortBy: string, dateKey: string -> int, a: Project, b: Project)
    requires IsRankedKey(sortBy) || (sortBy == "near-goal" && a.stage == Funding && b.stage == Funding)
    ensures Compare(sortBy, dateKey, a, b) == Rank(sortBy, dateKey, b) - Rank(sortBy, dateKey, a)
  {
  }

  /** The comparator as a function value, the argument handed to `sort`. */
  function Comparator(sortBy: string, dateKey: string -> int): (compare: (Project, Project) -> int)
    ensures forall a, b :: compare(a, b) == Compare(sortBy, dateKey, a, b)
  {
    (a, b) => Compare(sortBy, dateKey, a, b)
  }

  /** The order `filtered.sort(...)` leaves. */
  function SortProjects(sortBy: string, dateKey: string -> int, s: seq<Project>): seq<Project> {
    InsertionSort(Comparator(sortBy, dateKey), s)
  }

  /** Sorting only reorders: the result is a permutation of the filtered list. */
  lemma SortProjectsPermutation(sortBy: string, dateKey: string -> int, s: seq<Project>)
    ensures multiset(SortProjects(sortBy, dateKey, s)) == multiset(s)
  {
    SortPermutation(Comparator(sortBy, dateKey), s);
  }

  /** Neighbours in rank order make the whole list in rank order. */
  lemma {:induction false} AdjacentRanksToAll(sortBy: string, dateKey: string -> int, s: seq<Project>)
    requires forall i :: 0 <= i < |s| - 1 ==> Rank(sortBy, dateKey, s[i]) >= Rank(sortBy, dateKey, s[i + 1])
    ensures forall i, j :: 0 <= i < j < |s| ==> Rank(sortBy, dateKey, s[i]) >= Rank(sortBy, dateKey, s[j])
  {
    if |s| > 1 {
      AdjacentRanksToAll(sortBy, dateKey, s[1..]);
      forall i, j | 0 <= i < j < |s| ensures Rank(sortBy, dateKey, s[i]) >= Rank(sortBy, dateKey, s[j]) {
        if i > 0 {
          assert s[i] == s[1..][i - 1] && s[j] == s[1..][j - 1];
        } else if j > 1 {
          assert s[1] == s[1..][0] && s[j] == s[1..][j - 1];
        }
      }
    }
  }

  /** The result never has a neighbouring pair the comparator would swap. */
  lemma SortProjectsAdjacentInOrder(sortBy: string, dateKey: string -> int, s: seq<Project>)
    ensures AdjacentInOrder(Comparator(sortBy, dateKey), SortProjects(sortBy, dateKey, s))
  {
    var compare := Comparator(sortBy, dateKey);
    forall a, b ensures compare(a, b) == -compare(b, a) {
      CompareAntisymmetric(sortBy, dateKey, a, b);
    }
    SortInOrder(compare, s);
  }

  /** Under `most-voted` and `newest` the result is ordered by rank, largest first. */
  lemma RankedSortOrdered(sortBy: string, dateKey: string -> int, s: seq<Project>)
    requires IsRankedKey(sortBy)
    ensures var r := SortProjects(sortBy, dateKey, s);
      forall i, j :: 0 <= i < j < |r| ==> Rank(sortBy, dateKey, r[i]) >= Rank(sortBy, dateKey, r[j])
  {
    var r := SortProjects(sortBy, dateKey, s);
    SortProjectsAdjacentInOrder(sortBy, dateKey, s);
    forall i | 0 <= i < |r| - 1 ensures Rank(sortBy, dateKey, r[i]) >= Rank(sortBy, dateKey, r[i + 1]) {
      CompareByRank(sortBy, dateKey, r[i], r[i + 1]);
    }
    AdjacentRanksToAll(sortBy, dateKey, r);
  }

  /** Under `most-voted` the votes never increase along the result, a missing count reading as 0. */
  lemma MostVotedNonIncreasing(dateKey: string -> int, s: seq<Project>)
    ensures var r := SortProjects("most-voted", dateKey, s);
      forall i, j :: 0 <= i < j < |r| ==> r[i].votes.GetOr(0) >= r[j].votes.GetOr(0)
  {
    RankedSortOrdered("most-voted", dateKey, s);
  }

  /** Under `newest` the dates never increase along the result. */
  lemma NewestFirst(dateKey: string -> int, s: seq<Project>)
    ensures var r := SortProjects("newest", dateKey, s);
      forall i, j :: 0 <= i < j < |r| ==> dateKey(r[i].createdAt) >= dateKey(r[j].createdAt)
  {
    RankedSortOrdered("newest", dateKey, s);
  }

  /** Under `near-goal` a list of funding projects comes out by funding percentage, largest first. */
  lemma NearGoalAllFundingOrdered(dateKey: string -> int, s: seq<Project>)
    requires forall i :: 0 <= i < |s| ==> s[i].stage == Funding
    ensures var r := SortProjects("near-goal", dateKey, s);
      forall i, j :: 0 <= i < j < |r| ==> r[i].fundingPercentage.GetOr(0) >= r[j].fundingPercentage.GetOr(0)
  {
    var r := SortProjects("near-goal", dateKey, s);
    SortProjectsAdjacentInOrder("near-goal", dateKey, s);
    SortProjectsPermutation("near-goal", dateKey, s);
    forall i | 0 <= i < |r| ensures r[i].stage == Funding {
      assert r[i] in multiset(r);
    }
    forall i | 0 <= i < |r| - 1 ensures Rank("near-goal", dateKey, r[i]) >= Rank("near-goal", dateKey, r[i + 1]) {
      CompareByRank("near-goal", dateKey, r[i], r[i + 1]);
    }
    AdjacentRanksToAll("near-goal", dateKey, r);
  }

  /** Under `near-goal` a funding project and any other project compare equal. */
  lemma NearGoalIgnoresOtherStages(dateKey: string -> int, a: Project, b: Project)
    requires a.stage != Funding || b.stage != Funding
    ensures Compare("near-goal", dateKey, a, b) == 0
  {
  }

  /** A key the comparator's switch does not name compares everything equal, and the sort keeps the order. */
  lemma UnknownSortKeepsOrder(sortBy: string, dateKey: string -> int, s: seq<Project>)
    requires sortBy !in {"most-voted", "newest", "near-goal"}
    ensures SortProjects(sortBy, dateKey, s) == s
  {
    SortWithoutSwaps(Comparator(sortBy, dateKey), s);
  }

  /** The test selecting the projects of one rank, as a function value. */
  function HasRank(sortBy: string, dateKey: string -> int, k: int): (test: Project -> bool)
    ensures forall p :: test(p) == (Rank(sortBy, dateKey, p) == k)
  {
    p => Rank(sortBy, dateKey, p) == k
  }

  /**
   * The sort is stable under `most-voted` and `newest`: the projects of any one
   * rank keep their relative order.
   */
  lemma RankedSortStable(sortBy: string, dateKey: string -> int, k: int, s: seq<Project>)
    requires IsRankedKey(sortBy)
    ensures Filter(HasRank(sortBy, dateKey, k), SortProjects(sortBy, dateKey, s))
         == Filter(HasRank(sortBy, dateKey, k), s)
  {
    var compare, test := Comparator(sortBy, dateKey), HasRank(sortBy, dateKey, k);
    forall a, b | compare(a, b) > 0 && test(a) ensures !test(b) {
      CompareByRank(sortBy, dateKey, a, b);
    }
    SortStable(compare, test, s);
  }

  /**
   * The page's `filteredAndSortedProjects`: with `all` the shared list is sorted
   * in place and returned; with any other key a fresh filtered array is sorted
   * and the shared list is left as it was.
   */
  method FilteredAndSortedProjects(
    source: array<Project>, activeFilter: string, sortBy: string,
    viewer: Option<string>, dateKey: string -> int)
    returns (result: array<Project>)
    modifies source
    ensures activeFilter == "all" ==> result == source
    ensures activeFilter != "all" ==> fresh(result) && source[..] == old(source[..])
    ensures result[..] == SortProjects(sortBy, dateKey, FilterProjects(old(source[..]), activeFilter, viewer))
  {
    var filtered := source;
    if activeFilter != "all" {
      var kept := FilterProjects(source[..], activeFilter, viewer);
      filtered := new Project[|kept|](i requires 0 <= i < |kept| => kept[i]);
      assert filtered[..] == kept;
    } else {
      UnknownFilterKeepsAll(source[..], activeFilter, viewer);
    }
    SortInPlace(filtered, Comparator(sortBy, dateKey));
    result := filtered;
  }
}
