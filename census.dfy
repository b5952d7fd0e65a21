/** The `__main__` block: resolve the region, list, classify, count, recover, tally. */
module Census {
  import opened Wrappers
  import opened Keystone
  import opened RegionResolver
  import opened UsernameMatch
  import opened ProjectEnumerator
  import opened UserClassifier
  import opened UserCounter
  import opened RoleFallback

  /** Every HTTP response the run reads, already decoded. */
  datatype Responses = Responses(
    endpointGroups: seq<EndpointGroup>,
    projectsByGroup: map<string, seq<Project>>,
    users: UserDirectory,
    roleAssignments: RoleAssignmentTable)

  /** The three printed figures. */
  datatype Report = Report(totalUsers: nat, trialUsers: nat, communityUsers: nat)

  /** The project listing of an endpoint group; a group without one raises a KeyError. */
  function ProjectsOfGroup(groupId: string, resp: Responses): (r: Result<seq<Project>, Error>)
    ensures r.Success? <==> groupId in resp.projectsByGroup
    ensures r.Success? ==> r.value == resp.projectsByGroup[groupId]
    ensures r.Failure? ==> r.error == ProjectListMissing(groupId)
  {
    if groupId in resp.projectsByGroup then Success(resp.projectsByGroup[groupId])
    else Failure(ProjectListMissing(groupId))
  }

  /**
   * Everything before the fallback: the primary counts and the eligible projects.
   * It fails exactly when no endpoint group names the region, or when the
   * chosen group has no project listing.
   */
  function PrimaryPass(region: string, resp: Responses): (r: Result<(Counts, seq<Project>), Error>)
    ensures r == Failure(NoEndpointGroupForRegion) <==>
      forall g :: g in resp.endpointGroups ==> !MatchesRegion(g, region)
    ensures r.Success? <==>
      var gid := SelectRegionEndpointGroup(resp.endpointGroups, region);
      gid.Success? && gid.value in resp.projectsByGroup
    ensures r.Success? ==> r.value.0.total == r.value.0.trial + r.value.0.community + |r.value.0.others|
    ensures r.Success? ==> |r.value.0.others| <= r.value.0.total <= |r.value.1|
    ensures r.Success? ==>
      var listed := resp.projectsByGroup[SelectRegionEndpointGroup(resp.endpointGroups, region).value];
      && r.value.1 == EligibleProjects(listed)
      && r.value.0 == CountUsers(UserListPerRegion(listed).0, resp.users)
    ensures var gid := SelectRegionEndpointGroup(resp.endpointGroups, region);
      gid.Success? && gid.value !in resp.projectsByGroup ==> r == Failure(ProjectListMissing(gid.value))
  {
    var groupId :- SelectRegionEndpointGroup(resp.endpointGroups, region);
    var listed :- ProjectsOfGroup(groupId, resp);
    var (users, projects) := UserListPerRegion(listed);
    Success((CountUsers(users, resp.users), projects))
  }

  /**
   * The whole run. The fallback count is added to both the community and the
   * total figure and the trial figure is the primary one; so the total is
   * still the trial and community figures plus the unresolved usernames.
   */
  function RunCensus(region: string, resp: Responses): (r: Result<Report, Error>)
    ensures r == Failure(NoEndpointGroupForRegion) <==>
      forall g :: g in resp.endpointGroups ==> !MatchesRegion(g, region)
    ensures r.Success? <==>
      var p := PrimaryPass(region, resp);
      p.Success? && CountRecovered(p.value.0.others, p.value.1, resp.users, resp.roleAssignments).Success?
    ensures r.Success? ==>
      var (counts, projects) := PrimaryPass(region, resp).value;
      var recovered := CountRecovered(counts.others, projects, resp.users, resp.roleAssignments).value;
      && r.value.communityUsers == counts.community + recovered
      && r.value.totalUsers == counts.total + recovered
      && r.value.trialUsers == counts.trial
      && r.value.totalUsers == r.value.trialUsers + r.value.communityUsers + |counts.others|
    ensures r.Failure? ==>
      var p := PrimaryPass(region, resp);
      r.error == (if p.Failure? then p.error
                  else CountRecovered(p.value.0.others, p.value.1, resp.users, resp.roleAssignments).error)
  {
    match PrimaryPass(region, resp)
    case Failure(e) => Failure(e)
    case Success((counts, projects)) =>
      match CountRecovered(counts.others, projects, resp.users, resp.roleAssignments)
      case Failure(e) => Failure(e)
      case Success(recovered) =>
        Success(Report(counts.total + recovered, counts.trial, counts.community + recovered))
  }

  /** A run in which every username classifies aborts at the fallback's reduce. */
  lemma AllResolvedAborts(region: string, resp: Responses)
    requires PrimaryPass(region, resp).Success? && PrimaryPass(region, resp).value.0.others == []
    ensures RunCensus(region, resp) == Failure(EmptyReduce)
  {
    var (counts, projects) := PrimaryPass(region, resp).value;
    NothingUnresolvedFails(projects, resp.users, resp.roleAssignments);
  }

  /**
   * An example: two eligible projects, "Acme cloud" and "Beta Cloud"; Acme has a
   * community marker, Beta has no record, and Beta's project has one
   * role-assigned user with a community marker.
   */
  const AcmeProject := Project("pa", "Acme cloud", Some(true), Some(true))
  const BetaProject := Project("pb", "Beta Cloud", Some(true), Some(true))
  const ExampleDirectory: UserDirectory :=
    map["Acme" := UserRecord({CommunityStartedAt}), "u1" := UserRecord({CommunityStartedAt})]
  const ExampleAssignments: RoleAssignmentTable := map["pb" := [RoleAssignment(Some("u1"))]]
  const ExampleResponses := Responses(
    [EndpointGroup("g", Some(RegionFilter(Some("Spain"))))],
    map["g" := [AcmeProject, BetaProject]],
    ExampleDirectory,
    ExampleAssignments)

  /** Both example projects are eligible. */
  lemma ExampleEligible()
    ensures EligibleProjects([AcmeProject, BetaProject]) == [AcmeProject, BetaProject]
  {
    assert [AcmeProject, BetaProject][1..] == [BetaProject];
    assert [BetaProject][1..] == [];
  }

  /** Two names that both match give their usernames in order. */
  lemma DeriveTwoUsernames(n1: string, n2: string, u1: string, u2: string)
    requires ExtractUsername(n1) == Some(u1) && ExtractUsername(n2) == Some(u2)
    ensures DeriveUsernames([n1, n2]) == [u1, u2]
  {
    assert [n1, n2][1..] == [n2];
    assert [n2][1..] == [];
  }

  /** "Acme cloud" gives "Acme". */
  lemma ExampleExtractAcme()
    ensures ExtractUsername("Acme cloud") == Some("Acme")
  {
    assert IsCloudSpelling(" cloud");
    assert "Acme" + " cloud" == "Acme cloud";
    ExtractFromSuffixed("Acme", " cloud");
  }

  /** "Beta Cloud" gives "Beta". */
  lemma ExampleExtractBeta()
    ensures ExtractUsername("Beta Cloud") == Some("Beta")
  {
    assert IsCloudSpelling(" Cloud");
    assert "Beta" + " Cloud" == "Beta Cloud";
    ExtractFromSuffixed("Beta", " Cloud");
  }

  /** The example's usernames, in project order. */
  lemma ExampleUsernames()
    ensures DeriveUsernames(["Acme cloud", "Beta Cloud"]) == ["Acme", "Beta"]
  {
    ExampleExtractAcme();
    ExampleExtractBeta();
    DeriveTwoUsernames("Acme cloud", "Beta Cloud", "Acme", "Beta");
  }

  /** The example's user list. */
  lemma ExampleUserList()
    ensures UserListPerRegion([AcmeProject, BetaProject]) == (["Acme", "Beta"], [AcmeProject, BetaProject])
  {
    ExampleEligible();
    assert Names([AcmeProject, BetaProject]) == ["Acme cloud", "Beta Cloud"];
    ExampleUsernames();
  }

  /** The example's primary counts: Acme is Community, Beta is left over. */
  lemma ExampleCounts()
    ensures CountUsers(["Acme", "Beta"], ExampleDirectory) == Counts(2, 0, 1, ["Beta"])
  {
    var temporal := ClassifyAll(ExampleDirectory, ["Acme", "Beta"]);
    assert temporal == [Community, Other("Beta")];
    assert Others(temporal) == ["Beta"] by {
      assert temporal[1..] == [Other("Beta")];
      assert temporal[1..][1..] == [];
    }
    assert multiset(temporal)[Trial] == 0;
    assert multiset(temporal)[Community] == 1;
  }

  /** The primary pass of the example. */
  lemma ExamplePrimaryPass()
    ensures PrimaryPass("Spain", ExampleResponses) == Success((Counts(2, 0, 1, ["Beta"]), [AcmeProject, BetaProject]))
  {
    var groups := ExampleResponses.endpointGroups;
    assert SelectRegionEndpointGroup(groups, "Spain") == Success("g") by {
      assert groups[1..] == [];
    }
    ExampleUserList();
    ExampleCounts();
  }

  /** Only Beta's project is named after the leftover "Beta". */
  lemma ExampleSelect()
    ensures SelectProjectIds([AcmeProject, BetaProject], ["Beta"]) == ["pb"]
  {
    var ps := [AcmeProject, BetaProject];
    assert ps[1..] == [BetaProject];
    assert [BetaProject][1..] == [];
    assert ["Beta"][1..] == [];
    assert ("Beta" + " cloud")[0] == 'B' && ("Beta" + " Cloud")[0] == 'B';
    assert !NameMatches(AcmeProject.name, "Beta");
    assert "Beta" + " Cloud" == "Beta Cloud";
    assert IdsForProject(AcmeProject, ["Beta"]) == [];
    assert IdsForProject(BetaProject, ["Beta"]) == ["pb"];
    assert SelectProjectIds([], ["Beta"]) == [];
    assert SelectProjectIds([BetaProject], ["Beta"]) == ["pb"] + [];
    assert SelectProjectIds(ps, ["Beta"]) == [] + ["pb"];
  }

  /** Beta's project has one role-assigned user, and that user is Community. */
  lemma ExampleRoles()
    ensures ClassifyProjects(["pb"], ExampleAssignments, ExampleDirectory) == Success([[Community]])
  {
    var table := ExampleAssignments;
    assert AssignedUserIds(table["pb"]) == Some(["u1"]) by {
      assert table["pb"] == [RoleAssignment(Some("u1"))];
      var r := AssignedUserIds(table["pb"]);
      assert r.Some? && |r.value| == 1 && r.value[0] == "u1";
      assert r.value == ["u1"];
    }
    assert UsersWithSomeRole("pb", table, ExampleDirectory) == Success([Community]) by {
      assert ClassifyUser(ExampleDirectory, "u1") == Community;
      var r := UsersWithSomeRole("pb", table, ExampleDirectory);
      assert r.Success? && |r.value| == 1 && r.value[0] == Community;
      assert r.value == [Community];
    }
    var r := ClassifyProjects(["pb"], table, ExampleDirectory);
    assert r.Success? && |r.value| == 1 && r.value[0] == [Community];
    assert r.value == [[Community]];
  }

  /** The fallback of the example recovers one community user. */
  lemma ExampleRecovery()
    ensures CountRecovered(["Beta"], [AcmeProject, BetaProject], ExampleDirectory, ExampleAssignments) == Success(1)
  {
    ExampleSelect();
    ExampleRoles();
    assert ReduceConcat([[Community]]) == Success([Community]);
    assert Count([Community], Community) == 1;
  }

  /** The whole example: Beta counts once in the primary total and its recovered user once more. */
  lemma ExampleRun()
    ensures RunCensus("Spain", ExampleResponses) == Success(Report(3, 0, 2))
  {
    ExamplePrimaryPass();
    ExampleRecovery();
  }
}
