/** Project eligibility and username derivation: `get_user_list_per_region`. */
module ProjectEnumerator {
  import opened Wrappers
  import opened Keystone
  import opened UsernameMatch

  /** A project is eligible when both its cloud flag and its enabled flag are true; an absent flag fails. */
  predicate Eligible(p: Project) {
    p.isCloudProject == Some(true) && p.enabled == Some(true)
  }

  /** The eligible projects, in their original order. */
  function EligibleProjects(ps: seq<Project>): (r: seq<Project>)
    ensures |r| <= |ps|
    ensures forall p :: p in r <==> p in ps && Eligible(p)
  {
    if ps == [] then []
    else (if Eligible(ps[0]) then [ps[0]] else []) + EligibleProjects(ps[1..])
  }

  /** Filtering distributes over concatenation, so the kept projects keep their order. */
  lemma {:induction false} EligibleProjectsAppend(a: seq<Project>, b: seq<Project>)
    ensures EligibleProjects(a + b) == EligibleProjects(a) + EligibleProjects(b)
  {
    if a == [] {
      assert a + b == b;
    } else {
      assert (a + b)[1..] == a[1..] + b;
      EligibleProjectsAppend(a[1..], b);
    }
  }

  /** The names of the eligible projects, in order. */
  function Names(ps: seq<Project>): (r: seq<string>)
    ensures |r| == |ps|
    ensures forall i :: 0 <= i < |ps| ==> r[i] == ps[i].name
  {
    seq(|ps|, i requires 0 <= i < |ps| => ps[i].name)
  }

  /** The regex filter followed by the map to the captured group: one username per matching name. */
  function DeriveUsernames(names: seq<string>): (r: seq<string>)
    ensures |r| <= |names|
    ensures forall u :: u in r <==> exists n :: n in names && ExtractUsername(n) == Some(u)
  {
    if names == [] then []
    else
      var rest := DeriveUsernames(names[1..]);
      assert forall n :: n in names <==> n == names[0] || n in names[1..];
      match ExtractUsername(names[0])
      case None => rest
      case Some(u) => [u] + rest
  }

  /** Username derivation distributes over concatenation: usernames come in project order. */
  lemma {:induction false} DeriveUsernamesAppend(a: seq<string>, b: seq<string>)
    ensures DeriveUsernames(a + b) == DeriveUsernames(a) + DeriveUsernames(b)
  {
    if a == [] {
      assert a + b == b;
    } else {
      assert (a + b)[1..] == a[1..] + b;
      DeriveUsernamesAppend(a[1..], b);
    }
  }

  /**
   * The candidate usernames and the eligible projects. A username comes from the
   * name of some eligible project, every eligible project whose name matches gives
   * one, and there are no more usernames than eligible projects.
   */
  function UserListPerRegion(ps: seq<Project>): (r: (seq<string>, seq<Project>))
    ensures r.1 == EligibleProjects(ps)
    ensures r.0 == DeriveUsernames(Names(r.1))
    ensures |r.0| <= |r.1| <= |ps|
    ensures forall u :: u in r.0 <==> exists p :: p in ps && Eligible(p) && ExtractUsername(p.name) == Some(u)
  {
    var projects := EligibleProjects(ps);
    var names := Names(projects);
    assert forall n :: n in names <==> exists p :: p in projects && p.name == n by {
      forall n ensures n in names <==> exists p :: p in projects && p.name == n {
        if n in names {
          var i :| 0 <= i < |names| && names[i] == n;
          assert projects[i] in projects;
        }
        if exists p :: p in projects && p.name == n {
          var p :| p in projects && p.name == n;
          var i :| 0 <= i < |projects| && projects[i] == p;
          assert names[i] == n;
        }
      }
    }
    (DeriveUsernames(names), projects)
  }
}
