/** User classification: `type_user`. */
module UserClassifier {
  import opened Wrappers
  import opened Keystone

  /** The three outcomes: 1 (Community), 0 (Trial), or the looked-up name itself. */
  datatype Classification = Community | Trial | Other(name: string)

  const CommunityStartedAt: string := "community_started_at"
  const TrialStartedAt: string := "trial_started_at"

  /** Reading `key` from the user object of the response succeeds. */
  predicate Probe(dir: UserDirectory, user: string, key: string) {
    user in dir && key in dir[user].keys
  }

  /**
   * The try/except chain: the community marker is tried first, then the trial
   * marker, and any failure of both falls through to the name itself; nothing escapes.
   */
  function ClassifyUser(dir: UserDirectory, user: string): (c: Classification)
    ensures c == Community <==> user in dir && CommunityStartedAt in dir[user].keys
    ensures c == Trial <==> user in dir && CommunityStartedAt !in dir[user].keys && TrialStartedAt in dir[user].keys
    ensures c.Other? <==> user !in dir || (CommunityStartedAt !in dir[user].keys && TrialStartedAt !in dir[user].keys)
    ensures c.Other? ==> c.name == user
  {
    if Probe(dir, user, CommunityStartedAt) then Community
    else if Probe(dir, user, TrialStartedAt) then Trial
    else Other(user)
  }

  /** The outcome depends only on the record for that name. */
  lemma ClassifyUserLocal(d1: UserDirectory, d2: UserDirectory, user: string)
    requires (user in d1 <==> user in d2) && (user in d1 ==> d1[user] == d2[user])
    ensures ClassifyUser(d1, user) == ClassifyUser(d2, user)
  {
  }

  /** The classifications of a list of names, as `count_users` and `get_list_user_with_some_role` map `type_user`. */
  function ClassifyAll(dir: UserDirectory, users: seq<string>): (r: seq<Classification>)
    ensures |r| == |users|
    ensures forall i :: 0 <= i < |users| ==> r[i] == ClassifyUser(dir, users[i])
  {
    seq(|users|, i requires 0 <= i < |users| => ClassifyUser(dir, users[i]))
  }

  /** Classifying a concatenation classifies each part. */
  lemma ClassifyAllAppend(dir: UserDirectory, a: seq<string>, b: seq<string>)
    ensures ClassifyAll(dir, a + b) == ClassifyAll(dir, a) + ClassifyAll(dir, b)
  {
    assert forall i :: 0 <= i < |a| ==> (a + b)[i] == a[i];
    assert forall i :: |a| <= i < |a| + |b| ==> (a + b)[i] == b[i - |a|];
  }
}
