/**
 * Username derivation from a project name: group 1 of the pattern `(.*) cloud`,
 * matched with `re.match` under the flags re.M and re.I.
 *
 * `re.match` anchors at the start of the string (re.M only changes `^` and `$`,
 * which the pattern does not use); `.` matches any character but a newline;
 * `(.*)` is greedy, so the engine tries the longest candidate prefix first and
 * backtracks one character at a time; re.I without re.U folds ASCII letters only.
 */
module UsernameMatch {
  import opened Wrappers

  /** The literal part of the pattern, in the case the regex engine compares against. */
  const CloudSuffix: string := " cloud"

  /** ASCII lower-casing, the folding re.I applies. */
  function Lower(c: char): char {
    if 'A' <= c <= 'Z' then (c as int - 'A' as int + 'a' as int) as char else c
  }

  /** `s[k..]` starts with " cloud", letters compared without regard to case. */
  predicate SuffixAt(s: string, k: nat) {
    k + |CloudSuffix| <= |s| && forall i :: 0 <= i < |CloudSuffix| ==> Lower(s[k + i]) == CloudSuffix[i]
  }

  /** `(.*) cloud` matches `s` with group 1 equal to `s[..k]`: no newline before `k`, suffix at `k`. */
  predicate SplitsAt(s: string, k: nat) {
    SuffixAt(s, k) && forall i :: 0 <= i < k ==> s[i] != '\n'
  }

  /** `u` is the group the greedy pattern captures: a split point, and no longer one exists. */
  predicate IsGreedyMatch(s: string, u: string) {
    |u| <= |s| && u == s[..|u|] && SplitsAt(s, |u|) &&
    forall k :: |u| < k <= |s| ==> !SplitsAt(s, k)
  }

  /** How far `.*` can reach: the index of the first newline, or the length when there is none. */
  function LineEnd(s: string): (n: nat)
    ensures n <= |s|
    ensures forall i :: 0 <= i < n ==> s[i] != '\n'
    ensures n < |s| ==> s[n] == '\n'
  {
    if s == [] || s[0] == '\n' then 0
    else
      var n := 1 + LineEnd(s[1..]);
      assert forall i :: 1 <= i < n ==> s[i] == s[1..][i - 1];
      n
  }

  /** Tries split points `k`, `k - 1`, ..., `0` in turn, as the greedy group backtracks. */
  function Backtrack(s: string, k: nat): (r: Option<nat>)
    ensures r.Some? ==> r.value <= k && SuffixAt(s, r.value)
    ensures r.Some? ==> forall j :: r.value < j <= k ==> !SuffixAt(s, j)
    ensures r.None? ==> forall j :: 0 <= j <= k ==> !SuffixAt(s, j)
  {
    if SuffixAt(s, k) then Some(k)
    else if k == 0 then None
    else Backtrack(s, k - 1)
  }

  /** The username the primary pass derives from a project name, or None when the pattern fails. */
  function ExtractUsername(name: string): (r: Option<string>)
    ensures r.Some? ==> IsGreedyMatch(name, r.value)
    ensures r.None? <==> forall k :: 0 <= k <= |name| ==> !SplitsAt(name, k)
  {
    var e := LineEnd(name);
    assert forall k :: e < k <= |name| ==> !SplitsAt(name, k) by {
      forall k | e < k <= |name| ensures !SplitsAt(name, k) {
        assert name[e] == '\n';
      }
    }
    match Backtrack(name, e)
    case None => None
    case Some(k) => Some(name[..k])
  }

  /** There is at most one greedy match. */
  lemma GreedyMatchUnique(s: string, u: string, v: string)
    requires IsGreedyMatch(s, u) && IsGreedyMatch(s, v)
    ensures u == v
  {
  }

  /** Both directions: the extracted username is exactly the greedy match. */
  lemma ExtractUsernameIsGreedyMatch(name: string, u: string)
    ensures ExtractUsername(name) == Some(u) <==> IsGreedyMatch(name, u)
  {
    if IsGreedyMatch(name, u) {
      var r := ExtractUsername(name);
      assert r.Some?;
      GreedyMatchUnique(name, r.value, u);
    }
  }

  /** The username is a prefix of the name, followed by " cloud" in some case, with no newline in it. */
  lemma ExtractUsernameIsPrefix(name: string)
    requires ExtractUsername(name).Some?
    ensures var u := ExtractUsername(name).value;
      |u| + |CloudSuffix| <= |name| && name[..|u|] == u &&
      (forall i :: 0 <= i < |u| ==> u[i] != '\n') &&
      (forall i :: 0 <= i < |CloudSuffix| ==> Lower(name[|u| + i]) == CloudSuffix[i])
  {
  }

  /** A suffix " cloud" spelled in any case. */
  predicate IsCloudSpelling(t: string) {
    |t| == |CloudSuffix| && SuffixAt(t, 0)
  }

  /** A name made of a one-line prefix and " cloud" in any case gives back that prefix. */
  lemma {:induction false} ExtractFromSuffixed(u: string, t: string)
    requires forall i :: 0 <= i < |u| ==> u[i] != '\n'
    requires IsCloudSpelling(t)
    ensures ExtractUsername(u + t) == Some(u)
  {
    var s := u + t;
    assert s[..|u|] == u;
    forall i | 0 <= i < |CloudSuffix| ensures Lower(s[|u| + i]) == CloudSuffix[i] {
      assert s[|u| + i] == t[i];
    }
    assert SplitsAt(s, |u|);
    assert IsGreedyMatch(s, u);
    ExtractUsernameIsGreedyMatch(s, u);
  }

  /** "Foo cloud" and "Foo Cloud" (and "Foo CLOUD") give "Foo". */
  lemma ExtractExamples()
    ensures ExtractUsername("Foo cloud") == Some("Foo")
    ensures ExtractUsername("Foo Cloud") == Some("Foo")
    ensures ExtractUsername("Foo CLOUD") == Some("Foo")
  {
    assert "Foo" + " cloud" == "Foo cloud";
    assert "Foo" + " Cloud" == "Foo Cloud";
    assert "Foo" + " CLOUD" == "Foo CLOUD";
    assert IsCloudSpelling(" cloud");
    assert IsCloudSpelling(" Cloud");
    assert IsCloudSpelling(" CLOUD");
    ExtractFromSuffixed("Foo", " cloud");
    ExtractFromSuffixed("Foo", " Cloud");
    ExtractFromSuffixed("Foo", " CLOUD");
  }

  /** The group is greedy: it runs to the last " cloud" of the line. */
  lemma ExtractGreedyExample()
    ensures ExtractUsername("a cloud b cloud") == Some("a cloud b")
  {
    assert "a cloud b" + " cloud" == "a cloud b cloud";
    assert IsCloudSpelling(" cloud");
    ExtractFromSuffixed("a cloud b", " cloud");
  }

  /** `.` stops at a newline: only the first line is searched. */
  lemma ExtractFirstLineExample()
    ensures ExtractUsername("a cloud\nb cloud") == Some("a")
  {
    var s := "a cloud\nb cloud";
    assert SplitsAt(s, 1) by {
      assert s[1] == ' ' && s[2] == 'c' && s[3] == 'l' && s[4] == 'o' && s[5] == 'u' && s[6] == 'd';
    }
    forall k | 1 < k <= |s| ensures !SplitsAt(s, k) {
      if 7 < k {
        assert s[7] == '\n';
      } else {
        assert s[k] != ' ';
        assert Lower(s[k + 0]) != CloudSuffix[0];
      }
    }
    assert s[..1] == "a";
    assert IsGreedyMatch(s, "a");
    ExtractUsernameIsGreedyMatch(s, "a");
  }

  /** Without a space at `k`, " cloud" cannot start there. */
  lemma NoSuffixWithoutSpace(s: string, k: nat)
    requires k < |s| && s[k] != ' '
    ensures !SuffixAt(s, k)
  {
    assert Lower(s[k + 0]) != CloudSuffix[0];
  }

  /** A name without a split point gives no username. */
  lemma NoSplitGivesNone(s: string)
    requires forall k :: 0 <= k <= |s| ==> !SplitsAt(s, k)
    ensures ExtractUsername(s) == None
  {
  }

  /** "Foo Community" has no " cloud" and gives no username. */
  lemma ExtractNoMatchExample()
    ensures ExtractUsername("Foo Community") == None
  {
    var s := "Foo Community";
    forall k | 0 <= k <= |s| ensures !SplitsAt(s, k) {
      if k == 3 {
        assert Lower(s[3 + 3]) != CloudSuffix[3];
      } else if k < |s| {
        assert s[k] != ' ' by {
          if k < 3 { assert s[k] in "Foo"; } else { assert s[k] in "Community"; }
        }
        NoSuffixWithoutSpace(s, k);
      }
    }
    NoSplitGivesNone(s);
  }
}
