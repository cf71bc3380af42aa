/**
 * The project record shared by the pages and the two stage projections derived
 * from it (`mockVotingProjects`, `mockFundingProjects`), plus the owner filter
 * behind `mockUserActivity.postedProjects`.
 */
module MockData {
  import opened Js

  datatype Stage = Voting | Funding | Active

  /** `Project`: every field marked `?` in the interface is an Option. */
  datatype Project = Project(
    id: string,
    name: string,
    description: string,
    stage: Stage,
    votes: Option<int>,
    tags: seq<string>,
    createdAt: string,
    owner: string,
    fundingGoal: Option<int>,
    currentFunding: Option<int>,
    fundingPercentage: Option<int>,
    githubRepo: Option<string>,
    contributors: Option<int>,
    daysLeft: Option<int>,
    requiredVotes: Option<int>)

  /** `VotingProject`: the view of a project that is collecting votes. */
  datatype VotingProject = VotingProject(
    id: string,
    name: string,
    description: string,
    tags: seq<string>,
    currentVotes: int,
    requiredVotes: int,
    owner: string,
    createdAt: string,
    githubRepo: string)

  /** `FundingProject`: the view of a project that is raising funds. */
  datatype FundingProject = FundingProject(
    id: string,
    name: string,
    description: string,
    tags: seq<string>,
    fundingGoal: int,
    currentFunding: int,
    fundingPercentage: int,
    daysLeft: int,
    owner: string,
    createdAt: string,
    githubRepo: string,
    contributors: int)

  /** The vote target a project shows when it has none (or a falsy 0). */
  const DefaultRequiredVotes := 500

  /** The owner whose projects the demo profile lists as posted. */
  const DemoOwner := "0x742d35Cc6634C0532925a3b8D4C9db96C4b4d8b6"

  predicate IsVoting(p: Project) { p.stage == Voting }
  predicate IsFunding(p: Project) { p.stage == Funding }

  /** The `.map` callback of `mockVotingProjects`. */
  function ToVotingView(p: Project): (v: VotingProject)
    ensures v.id == p.id && v.name == p.name && v.description == p.description
    ensures v.tags == p.tags && v.owner == p.owner && v.createdAt == p.createdAt
    ensures v.currentVotes == p.votes.GetOr(0)
    ensures v.requiredVotes != 0
    ensures p.requiredVotes.Some? && p.requiredVotes.value != 0 ==> v.requiredVotes == p.requiredVotes.value
    ensures p.requiredVotes == None || p.requiredVotes == Some(0) ==> v.requiredVotes == DefaultRequiredVotes
    ensures v.githubRepo == p.githubRepo.GetOr("")
  {
    VotingProject(
      p.id, p.name, p.description, p.tags,
      OrNumber(p.votes, 0), OrNumber(p.requiredVotes, DefaultRequiredVotes),
      p.owner, p.createdAt, OrString(p.githubRepo, ""))
  }

  /** The `.map` callback of `mockFundingProjects`. */
  function ToFundingView(p: Project): (f: FundingProject)
    ensures f.id == p.id && f.name == p.name && f.description == p.description
    ensures f.tags == p.tags && f.owner == p.owner && f.createdAt == p.createdAt
    ensures f.fundingGoal == p.fundingGoal.GetOr(0)
    ensures f.currentFunding == p.currentFunding.GetOr(0)
    ensures f.fundingPercentage == p.fundingPercentage.GetOr(0)
    ensures f.daysLeft == p.daysLeft.GetOr(0)
    ensures f.contributors == p.contributors.GetOr(0)
    ensures f.githubRepo == p.githubRepo.GetOr("")
  {
    FundingProject(
      p.id, p.name, p.description, p.tags,
      OrNumber(p.fundingGoal, 0), OrNumber(p.currentFunding, 0),
      OrNumber(p.fundingPercentage, 0), OrNumber(p.daysLeft, 0),
      p.owner, p.createdAt, OrString(p.githubRepo, ""), OrNumber(p.contributors, 0))
  }

  /** `mockVotingProjects`, as a function of the project list. */
  function VotingProjects(projects: seq<Project>): seq<VotingProject> {
    Map(ToVotingView, Filter(IsVoting, projects))
  }

  /** `mockFundingProjects`, as a function of the project list. */
  function FundingProjects(projects: seq<Project>): seq<FundingProject> {
    Map(ToFundingView, Filter(IsFunding, projects))
  }

  /** `projects.filter(p => p.owner === owner)`: an exact, case-sensitive match. */
  function PostedProjects(projects: seq<Project>, owner: string): seq<Project> {
    Filter((p: Project) => p.owner == owner, projects)
  }

  /** `mockUserActivity.postedProjects`. */
  function MockPostedProjects(projects: seq<Project>): seq<Project> {
    PostedProjects(projects, DemoOwner)
  }

  /** The voting projection has one entry per project, of the project's own view if it is voting. */
  lemma VotingProjectsOfOne(p: Project)
    ensures VotingProjects([p]) == if p.stage == Voting then [ToVotingView(p)] else []
  {
    assert [p][1..] == [];
  }

  /** The voting projection keeps source order: it distributes over concatenation. */
  lemma VotingProjectsAppend(a: seq<Project>, b: seq<Project>)
    ensures VotingProjects(a + b) == VotingProjects(a) + VotingProjects(b)
  {
    FilterAppend(IsVoting, a, b);
    MapAppend(ToVotingView, Filter(IsVoting, a), Filter(IsVoting, b));
  }

  /** The funding projection has one entry per project, of the project's own view if it is funding. */
  lemma FundingProjectsOfOne(p: Project)
    ensures FundingProjects([p]) == if p.stage == Funding then [ToFundingView(p)] else []
  {
    assert [p][1..] == [];
  }

  /** The funding projection keeps source order: it distributes over concatenation. */
  lemma FundingProjectsAppend(a: seq<Project>, b: seq<Project>)
    ensures FundingProjects(a + b) == FundingProjects(a) + FundingProjects(b)
  {
    FilterAppend(IsFunding, a, b);
    MapAppend(ToFundingView, Filter(IsFunding, a), Filter(IsFunding, b));
  }

  /** Every voting view comes from a voting-stage project of the list, and every such project has one. */
  lemma VotingProjectsMembership(projects: seq<Project>, p: Project)
    ensures p in projects && p.stage == Voting ==> ToVotingView(p) in VotingProjects(projects)
    ensures forall v :: v in VotingProjects(projects) ==>
      exists q :: q in projects && q.stage == Voting && v == ToVotingView(q)
  {
    var kept := Filter(IsVoting, projects);
    FilterMembership(IsVoting, projects, p);
    if p in projects && p.stage == Voting {
      var i :| 0 <= i < |kept| && kept[i] == p;
      assert VotingProjects(projects)[i] == ToVotingView(p);
    }
    forall v | v in VotingProjects(projects)
      ensures exists q :: q in projects && q.stage == Voting && v == ToVotingView(q)
    {
      var i :| 0 <= i < |kept| && VotingProjects(projects)[i] == v;
      FilterMembership(IsVoting, projects, kept[i]);
    }
  }

  /** Every funding view comes from a funding-stage project of the list, and every such project has one. */
  lemma FundingProjectsMembership(projects: seq<Project>, p: Project)
    ensures p in projects && p.stage == Funding ==> ToFundingView(p) in FundingProjects(projects)
    ensures forall f :: f in FundingProjects(projects) ==>
      exists q :: q in projects && q.stage == Funding && f == ToFundingView(q)
  {
    var kept := Filter(IsFunding, projects);
    FilterMembership(IsFunding, projects, p);
    if p in projects && p.stage == Funding {
      var i :| 0 <= i < |kept| && kept[i] == p;
      assert FundingProjects(projects)[i] == ToFundingView(p);
    }
    forall f | f in FundingProjects(projects)
      ensures exists q :: q in projects && q.stage == Funding && f == ToFundingView(q)
    {
      var i :| 0 <= i < |kept| && FundingProjects(projects)[i] == f;
      FilterMembership(IsFunding, projects, kept[i]);
    }
  }

  /** No two projects of the list share an id. */
  predicate DistinctIds(projects: seq<Project>) {
    forall i, j :: 0 <= i < j < |projects| ==> projects[i].id != projects[j].id
  }

  /** With distinct ids, no id is both in the voting and in the funding projection. */
  lemma VotingAndFundingDisjoint(projects: seq<Project>)
    requires DistinctIds(projects)
    ensures forall v, f :: v in VotingProjects(projects) && f in FundingProjects(projects) ==> v.id != f.id
  {
    forall v, f | v in VotingProjects(projects) && f in FundingProjects(projects)
      ensures v.id != f.id
    {
      VotingProjectsMembership(projects, projects[0]);
      FundingProjectsMembership(projects, projects[0]);
      var p :| p in projects && p.stage == Voting && v == ToVotingView(p);
      var q :| q in projects && q.stage == Funding && f == ToFundingView(q);
      var i :| 0 <= i < |projects| && projects[i] == p;
      var j :| 0 <= j < |projects| && projects[j] == q;
      assert i != j;
    }
  }

  /** `postedProjects` keeps exactly the projects whose owner is the address, character for character. */
  lemma PostedProjectsMembership(projects: seq<Project>, owner: string, p: Project)
    ensures p in PostedProjects(projects, owner) <==> p in projects && p.owner == owner
  {
    FilterMembership((q: Project) => q.owner == owner, projects, p);
  }

  /** The profile lists exactly the demo owner's projects, matched character for character. */
  lemma MockPostedProjectsMembership(projects: seq<Project>, p: Project)
    ensures p in MockPostedProjects(projects) <==> p in projects && p.owner == DemoOwner
  {
    PostedProjectsMembership(projects, DemoOwner, p);
  }
}
