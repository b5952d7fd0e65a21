/** Counting: `count_users`. */
module UserCounter {
  import opened Keystone
  import opened UserClassifier

  /** How often the outcome `c` occurs among the classifications. */
  function Count(ts: seq<Classification>, c: Classification): (n: nat)
    ensures n == multiset(ts)[c]
  {
    if ts == [] then 0
    else
      assert ts == [ts[0]] + ts[1..];
      (if ts[0] == c then 1 else 0) + Count(ts[1..], c)
  }

  /** The sentinel names among the classifications, in order. */
  function Others(ts: seq<Classification>): (r: seq<string>)
    ensures |r| + multiset(ts)[Trial] + multiset(ts)[Community] == |ts|
    ensures forall x :: x in r <==> Other(x) in ts
  {
    if ts == [] then []
    else
      assert ts == [ts[0]] + ts[1..];
      var rest := Others(ts[1..]);
      match ts[0]
      case Other(x) => [x] + rest
      case _ => rest
  }

  /** The sentinel filter distributes over concatenation: input order is kept. */
  lemma {:induction false} OthersAppend(a: seq<Classification>, b: seq<Classification>)
    ensures Others(a + b) == Others(a) + Others(b)
  {
    if a == [] {
      assert a + b == b;
    } else {
      assert (a + b)[1..] == a[1..] + b;
      OthersAppend(a[1..], b);
    }
  }

  /** The four results of `count_users`. */
  datatype Counts = Counts(total: nat, trial: nat, community: nat, others: seq<string>)

  /**
   * Every username is counted once; the trial and community counts are the
   * occurrences of those outcomes; the leftover names are exactly the usernames
   * that classify as neither, so the counts are conserved.
   */
  function CountUsers(users: seq<string>, dir: UserDirectory): (c: Counts)
    ensures c.total == |users|
    ensures c.total == c.trial + c.community + |c.others|
    ensures c.trial == multiset(ClassifyAll(dir, users))[Trial]
    ensures c.community == multiset(ClassifyAll(dir, users))[Community]
    ensures forall u :: u in c.others <==> u in users && ClassifyUser(dir, u).Other?
  {
    var temporal := ClassifyAll(dir, users);
    var others := Others(temporal);
    assert forall u :: Other(u) in temporal <==> u in users && ClassifyUser(dir, u).Other? by {
      forall u ensures Other(u) in temporal <==> u in users && ClassifyUser(dir, u).Other? {
        if Other(u) in temporal {
          var i :| 0 <= i < |temporal| && temporal[i] == Other(u);
          assert users[i] == u;
        }
        if u in users && ClassifyUser(dir, u).Other? {
          var i :| 0 <= i < |users| && users[i] == u;
          assert temporal[i] == Other(u);
        }
      }
    }
    Counts(|temporal|, Count(temporal, Trial), Count(temporal, Community), others)
  }

  /** Counting a concatenation adds the counts and concatenates the leftovers in order. */
  lemma CountUsersAppend(a: seq<string>, b: seq<string>, dir: UserDirectory)
    ensures var ca, cb, cab := CountUsers(a, dir), CountUsers(b, dir), CountUsers(a + b, dir);
      cab.total == ca.total + cb.total && cab.trial == ca.trial + cb.trial &&
      cab.community == ca.community + cb.community && cab.others == ca.others + cb.others
  {
    ClassifyAllAppend(dir, a, b);
    OthersAppend(ClassifyAll(dir, a), ClassifyAll(dir, b));
  }
}
