/** Fallback recovery: `get_list_users_from_project` and `get_list_user_with_some_role`. */
module RoleFallback {
  import opened Wrappers
  import opened Keystone
  import opened UsernameMatch
  import opened UserClassifier
  import opened UserCounter

  /** The fallback's name test: the username followed by " cloud" or " Cloud", no other spelling. */
  predicate NameMatches(name: string, u: string) {
    name == u + " cloud" || name == u + " Cloud"
  }

  /** The name ends in one of the two spellings the fallback accepts. */
  predicate HasFallbackSuffix(name: string) {
    |name| >= 6 && (name[|name| - 6..] == " cloud" || name[|name| - 6..] == " Cloud")
  }

  /** The part of the name before its six-character suffix. */
  function Stem(name: string): string
    requires |name| >= 6
  {
    name[..|name| - 6]
  }

  /** A name matches exactly one candidate username: its stem, when it has a fallback suffix. */
  lemma NameMatchesStem(name: string, u: string)
    ensures NameMatches(name, u) <==> HasFallbackSuffix(name) && u == Stem(name)
  {
    if NameMatches(name, u) {
      assert name[..|u|] == u;
    }
    if HasFallbackSuffix(name) && u == Stem(name) {
      assert name == name[..|name| - 6] + name[|name| - 6..];
    }
  }

  /** The comprehension's inner loop for one project: its id once per matching username. */
  function IdsForProject(p: Project, us: seq<string>): (r: seq<string>)
    ensures forall x :: x in r ==> x == p.id
    ensures r != [] <==> exists u :: u in us && NameMatches(p.name, u)
  {
    if us == [] then []
    else
      assert forall u :: u in us <==> u == us[0] || u in us[1..];
      (if NameMatches(p.name, us[0]) then [p.id] else []) + IdsForProject(p, us[1..])
  }

  /** A project's id is emitted once for each occurrence of its stem among the usernames. */
  lemma {:induction false} IdsForProjectCount(p: Project, us: seq<string>)
    ensures |IdsForProject(p, us)| == if HasFallbackSuffix(p.name) then multiset(us)[Stem(p.name)] else 0
  {
    if us != [] {
      assert us == [us[0]] + us[1..];
      NameMatchesStem(p.name, us[0]);
      IdsForProjectCount(p, us[1..]);
    }
  }

  /** The inner loop runs over the usernames in order. */
  lemma {:induction false} IdsForProjectAppend(p: Project, a: seq<string>, b: seq<string>)
    ensures IdsForProject(p, a + b) == IdsForProject(p, a) + IdsForProject(p, b)
  {
    if a == [] {
      assert a + b == b;
    } else {
      assert (a + b)[1..] == a[1..] + b;
      IdsForProjectAppend(p, a[1..], b);
    }
  }

  /**
   * The comprehension of `get_list_users_from_project`, projects outer and
   * usernames inner: one project id per (project, username) pair whose name is
   * the username plus " cloud" or " Cloud".
   */
  function SelectProjectIds(ps: seq<Project>, us: seq<string>): (r: seq<string>)
    ensures forall id :: id in r <==> exists p, u :: p in ps && u in us && p.id == id && NameMatches(p.name, u)
  {
    if ps == [] then []
    else
      var head := IdsForProject(ps[0], us);
      var rest := SelectProjectIds(ps[1..], us);
      assert forall p :: p in ps <==> p == ps[0] || p in ps[1..];
      assert forall id :: id in head <==> id == ps[0].id && exists u :: u in us && NameMatches(ps[0].name, u) by {
        if head != [] { assert head[0] in head; }
      }
      head + rest
  }

  /** The outer loop runs over the projects in order. */
  lemma {:induction false} SelectProjectIdsAppend(a: seq<Project>, b: seq<Project>, us: seq<string>)
    ensures SelectProjectIds(a + b, us) == SelectProjectIds(a, us) + SelectProjectIds(b, us)
  {
    if a == [] {
      assert a + b == b;
    } else {
      assert (a + b)[1..] == a[1..] + b;
      SelectProjectIdsAppend(a[1..], b, us);
    }
  }

  /** For one project, the comprehension is exactly its inner loop. */
  lemma SelectProjectIdsSingle(p: Project, us: seq<string>)
    ensures SelectProjectIds([p], us) == IdsForProject(p, us)
  {
    assert [p][1..] == [];
  }

  /** The number of (project, username) pairs that match, counted with repetition. */
  function MatchingPairs(ps: seq<Project>, us: seq<string>): nat {
    if ps == [] then 0
    else
      (if HasFallbackSuffix(ps[0].name) then multiset(us)[Stem(ps[0].name)] else 0) + MatchingPairs(ps[1..], us)
  }

  /** One project id per matching (project, username) pair: a repeated username selects its project again. */
  lemma {:induction false} SelectProjectIdsLength(ps: seq<Project>, us: seq<string>)
    ensures |SelectProjectIds(ps, us)| == MatchingPairs(ps, us)
  {
    if ps != [] {
      IdsForProjectCount(ps[0], us);
      SelectProjectIdsLength(ps[1..], us);
    }
  }

  /** A username occurring twice emits the id of a matching project twice. */
  lemma RepeatedNameSelectsTwice(p: Project, u: string)
    requires NameMatches(p.name, u)
    ensures SelectProjectIds([p], [u, u]) == [p.id, p.id]
  {
    SelectProjectIdsSingle(p, [u, u]);
    assert [u, u][1..] == [u];
    assert [u][1..] == [];
  }

  /**
   * Projects "Beta cloud" and "Beta Cloud" with the leftover "Beta" listed
   * twice: each project is selected once per occurrence, in project order.
   */
  lemma DuplicateLeftoverSelectsTwice()
    ensures SelectProjectIds([Project("p1", "Beta cloud", Some(true), Some(true)),
                              Project("p2", "Beta Cloud", Some(true), Some(true))], ["Beta", "Beta"])
            == ["p1", "p1", "p2", "p2"]
  {
    var p1 := Project("p1", "Beta cloud", Some(true), Some(true));
    var p2 := Project("p2", "Beta Cloud", Some(true), Some(true));
    assert "Beta" + " cloud" == "Beta cloud";
    assert "Beta" + " Cloud" == "Beta Cloud";
    RepeatedNameSelectsTwice(p1, "Beta");
    RepeatedNameSelectsTwice(p2, "Beta");
    SelectProjectIdsAppend([p1], [p2], ["Beta", "Beta"]);
    assert [p1] + [p2] == [p1, p2];
  }

  /** A project named with " CLOUD" is never selected, whatever the usernames. */
  lemma UpperCloudNeverSelected(p: Project, us: seq<string>)
    requires |p.name| >= 6 && p.name[|p.name| - 6..] == " CLOUD"
    ensures SelectProjectIds([p], us) == []
  {
    assert [p][1..] == [];
    assert !HasFallbackSuffix(p.name);
  }

  /** The primary pass derives "Foo" from "Foo CLOUD", but the fallback cannot find that project again. */
  lemma CaseAsymmetryExample()
    ensures ExtractUsername("Foo CLOUD") == Some("Foo")
    ensures SelectProjectIds([Project("p", "Foo CLOUD", Some(true), Some(true))], ["Foo"]) == []
  {
    ExtractExamples();
    var name := "Foo CLOUD";
    assert name[|name| - 6..] == " CLOUD";
    UpperCloudNeverSelected(Project("p", name, Some(true), Some(true)), ["Foo"]);
  }

  /** The user ids of a project's role assignments; fails on an entry without a user. */
  function AssignedUserIds(asg: seq<RoleAssignment>): (r: Option<seq<string>>)
    ensures r.Some? <==> forall i :: 0 <= i < |asg| ==> asg[i].userId.Some?
    ensures r.Some? ==> |r.value| == |asg| && forall i :: 0 <= i < |asg| ==> r.value[i] == asg[i].userId.value
  {
    if asg == [] then Some([])
    else
      match asg[0].userId
      case None => None
      case Some(id) =>
        match AssignedUserIds(asg[1..])
        case None => None
        case Some(rest) => Some([id] + rest)
  }

  /** `get_list_user_with_some_role`: the classifications of a project's role-assigned users. */
  function UsersWithSomeRole(pid: string, table: RoleAssignmentTable, dir: UserDirectory): (r: Result<seq<Classification>, Error>)
    ensures r.Success? <==> pid in table && forall i :: 0 <= i < |table[pid]| ==> table[pid][i].userId.Some?
    ensures r.Success? ==> (|r.value| == |table[pid]| &&
      forall i :: 0 <= i < |table[pid]| ==> r.value[i] == ClassifyUser(dir, table[pid][i].userId.value))
    ensures r.Failure? ==> r.error == (if pid in table then AssignmentWithoutUser(pid) else RoleAssignmentsMissing(pid))
  {
    if pid !in table then Failure(RoleAssignmentsMissing(pid))
    else
      match AssignedUserIds(table[pid])
      case None => Failure(AssignmentWithoutUser(pid))
      case Some(ids) => Success(ClassifyAll(dir, ids))
  }

  /** The role-assignment lookup for every selected project, in order; stops at the first failing project. */
  function ClassifyProjects(pids: seq<string>, table: RoleAssignmentTable, dir: UserDirectory): (r: Result<seq<seq<Classification>>, Error>)
    ensures r.Success? <==> forall i :: 0 <= i < |pids| ==> UsersWithSomeRole(pids[i], table, dir).Success?
    ensures r.Success? ==> (|r.value| == |pids| &&
      forall i :: 0 <= i < |pids| ==> r.value[i] == UsersWithSomeRole(pids[i], table, dir).value)
    ensures r.Failure? ==>
      exists i :: 0 <= i < |pids| && UsersWithSomeRole(pids[i], table, dir) == Failure(r.error) &&
                  forall j :: 0 <= j < i ==> UsersWithSomeRole(pids[j], table, dir).Success?
  {
    if pids == [] then Success([])
    else
      var head :- UsersWithSomeRole(pids[0], table, dir);
      var rest := ClassifyProjects(pids[1..], table, dir);
      if rest.Failure? then
        assert exists i :: 1 <= i < |pids| && UsersWithSomeRole(pids[i], table, dir) == Failure(rest.error) &&
                           forall j :: 0 <= j < i ==> UsersWithSomeRole(pids[j], table, dir).Success? by {
          var i :| 0 <= i < |pids[1..]| && UsersWithSomeRole(pids[1..][i], table, dir) == Failure(rest.error) &&
            forall j :: 0 <= j < i ==> UsersWithSomeRole(pids[1..][j], table, dir).Success?;
          assert pids[i + 1] == pids[1..][i];
          forall j | 0 <= j < i + 1 ensures UsersWithSomeRole(pids[j], table, dir).Success? {
            if j > 0 { assert pids[j] == pids[1..][j - 1]; }
          }
        }
        Failure(rest.error)
      else
        assert forall i :: 1 <= i < |pids| ==> pids[i] == pids[1..][i - 1];
        Success([head] + rest.value)
  }

  /** The concatenation of a list of lists, from the right. */
  function Flatten<T>(lists: seq<seq<T>>): seq<T> {
    if lists == [] then [] else lists[0] + Flatten(lists[1..])
  }

  /**
   * The fold `reduce` performs with list concatenation, from the left. As
   * concatenation is associative, it gives the flattened list.
   */
  function FoldConcat<T>(acc: seq<T>, rest: seq<seq<T>>): (r: seq<T>)
    ensures r == acc + Flatten(rest)
    decreases |rest|
  {
    if rest == [] then acc
    else
      var r := FoldConcat(acc + rest[0], rest[1..]);
      assert (acc + rest[0]) + Flatten(rest[1..]) == acc + (rest[0] + Flatten(rest[1..]));
      r
  }

  /** The `reduce` of the fallback, which has no initial value: an empty list fails. */
  function ReduceConcat<T>(lists: seq<seq<T>>): (r: Result<seq<T>, Error>)
    ensures r.Failure? <==> lists == []
    ensures r.Failure? ==> r.error == EmptyReduce
    ensures r.Success? ==> r.value == Flatten(lists)
  {
    if lists == [] then Failure(EmptyReduce)
    else
      Success(FoldConcat(lists[0], lists[1..]))
  }

  /** The user ids assigned roles on the given projects, projects in order. */
  function RoleUserIds(pids: seq<string>, table: RoleAssignmentTable): seq<string> {
    if pids == [] then []
    else
      var ids := if pids[0] in table then AssignedUserIds(table[pids[0]]) else None;
      (if ids.Some? then ids.value else []) + RoleUserIds(pids[1..], table)
  }

  /** When every project lookup succeeds, the reduced list classifies the ids `RoleUserIds` lists. */
  lemma {:induction false} ClassifiedProjectsFlatten(pids: seq<string>, table: RoleAssignmentTable, dir: UserDirectory)
    requires ClassifyProjects(pids, table, dir).Success?
    ensures Flatten(ClassifyProjects(pids, table, dir).value) == ClassifyAll(dir, RoleUserIds(pids, table))
  {
    if pids != [] {
      var lists := ClassifyProjects(pids, table, dir).value;
      assert UsersWithSomeRole(pids[0], table, dir).Success?;
      assert ClassifyProjects(pids[1..], table, dir).Success? by {
        forall i | 0 <= i < |pids[1..]| ensures UsersWithSomeRole(pids[1..][i], table, dir).Success? {
          assert pids[1..][i] == pids[i + 1];
        }
      }
      ClassifiedProjectsFlatten(pids[1..], table, dir);
      var ids := AssignedUserIds(table[pids[0]]).value;
      assert lists[0] == ClassifyAll(dir, ids);
      assert lists[1..] == ClassifyProjects(pids[1..], table, dir).value by {
        var tail := ClassifyProjects(pids[1..], table, dir).value;
        forall i | 0 <= i < |tail| ensures lists[1..][i] == tail[i] {
          assert pids[1..][i] == pids[i + 1];
        }
      }
      ClassifyAllAppend(dir, ids, RoleUserIds(pids[1..], table));
    }
  }

  /**
   * `get_list_users_from_project`: the number of Community outcomes among the
   * role-assigned users of the projects selected for the unresolved usernames.
   * It fails exactly when no project is selected (the reduce), or when a
   * selected project's assignments cannot be read.
   */
  function CountRecovered(others: seq<string>, projects: seq<Project>, dir: UserDirectory, table: RoleAssignmentTable): (r: Result<nat, Error>)
    ensures r == Failure(EmptyReduce) <==> SelectProjectIds(projects, others) == []
    ensures var pids := SelectProjectIds(projects, others);
      r.Success? <==> pids != [] && forall i :: 0 <= i < |pids| ==> UsersWithSomeRole(pids[i], table, dir).Success?
    ensures r.Failure? ==> r.error.EmptyReduce? || r.error.RoleAssignmentsMissing? || r.error.AssignmentWithoutUser?
    ensures var pids := SelectProjectIds(projects, others);
      r.Failure? && pids != [] ==> ClassifyProjects(pids, table, dir) == Failure(r.error)
    ensures var ids := RoleUserIds(SelectProjectIds(projects, others), table);
      r.Success? ==> r.value == multiset(ClassifyAll(dir, ids))[Community] && r.value <= |ids|
  {
    var pids := SelectProjectIds(projects, others);
    var lists :- ClassifyProjects(pids, table, dir);
    var all :- ReduceConcat(lists);
    ClassifiedProjectsFlatten(pids, table, dir);
    Success(Count(all, Community))
  }

  /** With no usernames the comprehension selects nothing. */
  lemma {:induction false} NothingSelected(ps: seq<Project>)
    ensures SelectProjectIds(ps, []) == []
  {
    if ps != [] {
      NothingSelected(ps[1..]);
    }
  }

  /** When every username was resolved, nothing is selected and the reduce fails. */
  lemma NothingUnresolvedFails(projects: seq<Project>, dir: UserDirectory, table: RoleAssignmentTable)
    ensures CountRecovered([], projects, dir, table) == Failure(EmptyReduce)
  {
    NothingSelected(projects);
  }
}
