# fiware-users census, modelled in Dafny

`get_users.py` asks a Keystone-style identity service for the users of one
deployment region and prints three figures: total, trial and community users.
Under its HTTP calls sits a chain of pure transformations over decoded JSON.
This project models that chain as Dafny functions. Each HTTP response is an
input value:

- the `endpoint_groups` list;
- for each endpoint-group id, its `projects` list;
- a directory from username or user id to the `user` object's keys;
- a table from project id to its `role_assignments` list.

The run works in these steps:

1. **Region resolution** (`RegionResolver`). The run picks the id of the first
   endpoint group whose `filters.region_id` is the region. If no group matches,
   the run stops with an error.
2. **Project eligibility and usernames** (`ProjectEnumerator`, `UsernameMatch`).
   A project is kept only when both `is_cloud_project` and `enabled` are true.
   A username is derived with `re.match(r'(.*) cloud', name, re.M | re.I)`.
   That regex matches from the start of the name, and `(.*)` is greedy and
   stops at the first newline. Letters in " cloud" match in any case, folding
   ASCII letters only. The model states the result as the longest prefix of
   the first line that is followed by " cloud" in any case.
3. **Classification** (`UserClassifier`). The try/except chain gives
   `Community` when the user object has `community_started_at`. Otherwise it
   gives `Trial` when it has `trial_started_at`. Otherwise it gives
   `Other(name)`, the sentinel that the script keeps as the raw string. No
   lookup failure escapes.
4. **Counting** (`UserCounter`). This gives the total, the trial count, the
   community count and the leftover names, in input order.
5. **Fallback** (`RoleFallback`). For each (project, leftover name) pair,
   projects outer and names inner, the run selects the project id when the
   project name is exactly the name plus " cloud" or " Cloud". It classifies
   every role-assigned user of those projects and counts the `Community`
   results. `reduce` without an initial value fails when nothing was selected.
6. **Tally** (`Census`). The recovered count is added to both the community
   figure and the total figure.

Points of the code's behaviour that the model keeps:

- Region resolution takes the first matching group. It does not reject a
  region that several groups name.
- `re.match` anchors the pattern at the start of the name; a " cloud" after
  the first newline is never seen.
- A leftover username stays in the total, and each user recovered for it is
  added to the total once more. For two eligible projects "Acme cloud" and
  "Beta Cloud", with Acme a community user and Beta recovered through one
  community role assignment, the run prints total 3, trial 0, community 2
  (`Census.ExampleRun`).
- The fallback is not lenient. If every username is classified in the primary
  pass, or no leftover name has a project spelled " cloud" or " Cloud", the
  `reduce` fails and the summary is not printed; the progress lines
  printed before that point still appear (`Census.AllResolvedAborts`).
- The fallback selects a project once per (project, leftover name) pair. A
  leftover name that occurs twice selects its projects twice, so their
  role-assigned users are classified twice. Each recovered community user is
  then counted twice in the community figure and twice in the total
  (`RoleFallback.DuplicateLeftoverSelectsTwice`).

## Model

| member | source | states |
|---|---|---|
| `RegionResolver.MatchesRegion` | get_users.py:53 | the lambda of the filter: the group has a `filters` object whose `region_id` is the region |
| `RegionResolver.MatchingGroups` | get_users.py:53 | the Python 2 `filter`: keeps exactly the groups whose filters name the region, no more than the input, and its first element is the first matching group in list order |
| `RegionResolver.SelectRegionEndpointGroup` | get_users.py:53 | succeeds iff some group names the region; the id returned is that of the first such group (all earlier groups do not match); otherwise the `[0]` IndexError |
| `RegionResolver.MatchingGroupsAppend` | get_users.py:53 | the region filter distributes over concatenation, so matches keep list order |
| `RegionResolver.UnfilteredGroupIgnored` | get_users.py:53 | a group without `filters` never matches: inserting one anywhere leaves the resolved id (or the failure) unchanged |
| `ProjectEnumerator.Eligible` | get_users.py:70-71 | the lambda of the filter: both flags present and true |
| `ProjectEnumerator.EligibleProjects` | get_users.py:70-71 | keeps a project iff both `is_cloud_project` and `enabled` are true (an absent key fails), and returns no more projects than it is given |
| `ProjectEnumerator.EligibleProjectsAppend` | get_users.py:70-71 | filtering distributes over concatenation, so the kept projects are in their original order |
| `ProjectEnumerator.Names` | get_users.py:73 | one name per project, position for position |
| `ProjectEnumerator.DeriveUsernames` | get_users.py:75-77 | at most one username per name; a string is a username iff some name's regex match captures exactly it |
| `ProjectEnumerator.DeriveUsernamesAppend` | get_users.py:75-77 | usernames come out in project order |
| `ProjectEnumerator.UserListPerRegion` | get_users.py:58-79 | returns the eligible projects and their usernames; no more usernames than eligible projects, and no more of those than listed projects; the usernames are the derivation over the eligible projects' names, so one per matching project, duplicates kept, in project order; a username comes from an eligible project's name, and every matching eligible name gives one |
| `UsernameMatch.LineEnd` | get_users.py:75 | how far `.` can reach: the first newline's index or the length, with no newline before it |
| `UsernameMatch.Backtrack` | get_users.py:75 | greedy backtracking: the largest split point not beyond the start position with " cloud" after it, or none |
| `UsernameMatch.ExtractUsername` | get_users.py:75-77 | a found username is the greedy match (a one-line prefix followed by " cloud" in any case, with no longer such prefix); no username iff no split point exists |
| `UsernameMatch.GreedyMatchUnique` | get_users.py:75-77 | a name has at most one greedy match |
| `UsernameMatch.ExtractUsernameIsGreedyMatch` | get_users.py:75-77 | both directions: the extracted username is u iff u is the greedy match |
| `UsernameMatch.ExtractUsernameIsPrefix` | get_users.py:77 | group 1 is a prefix of the name with no newline, followed by " cloud" in some case |
| `UsernameMatch.ExtractFromSuffixed` | get_users.py:75-77 | a one-line prefix plus " cloud" in any case gives back exactly that prefix |
| `UsernameMatch.ExtractExamples` | get_users.py:75-77 | "Foo cloud", "Foo Cloud" and "Foo CLOUD" all give "Foo" |
| `UsernameMatch.ExtractGreedyExample` | get_users.py:75-77 | "a cloud b cloud" gives "a cloud b": the group is greedy |
| `UsernameMatch.ExtractFirstLineExample` | get_users.py:75-77 | "a cloud\nb cloud" gives "a": `.` does not cross a newline |
| `UsernameMatch.NoSuffixWithoutSpace` | get_users.py:75 | " cloud" cannot start at a character other than a space |
| `UsernameMatch.NoSplitGivesNone` | get_users.py:75 | a name with no split point gives no username |
| `UsernameMatch.ExtractNoMatchExample` | get_users.py:75 | "Foo Community" gives no username |
| `UserClassifier.ClassifyUser` | get_users.py:96-125 | Community iff the record has `community_started_at` (whatever else it has); Trial iff it lacks that and has `trial_started_at`; otherwise, a missing record included, the sentinel carrying the name itself |
| `UserClassifier.ClassifyUserLocal` | get_users.py:106-123 | the outcome depends only on the response for that one name |
| `UserClassifier.ClassifyAll` | get_users.py:85 | one classification per name, position for position |
| `UserClassifier.ClassifyAllAppend` | get_users.py:155 | classifying a concatenation concatenates the classifications |
| `UserCounter.Count` | get_users.py:88-89 | the length of the filter equals the multiplicity of that outcome |
| `UserCounter.Others` | get_users.py:91 | the sentinel names, exactly those x with Other(x) among the outcomes; their number is the total minus the trials and the communities |
| `UserCounter.OthersAppend` | get_users.py:91 | the sentinel filter keeps input order |
| `UserCounter.CountUsers` | get_users.py:82-93 | total is the number of usernames and equals trial + community + leftovers; trial and community are the outcome multiplicities; the leftovers are exactly the usernames that classify as neither |
| `UserCounter.CountUsersAppend` | get_users.py:82-93 | counting a concatenation adds the counts and concatenates the leftovers in order |
| `RoleFallback.NameMatches` | get_users.py:130 | the comprehension's condition: the name is the username plus " cloud" or plus " Cloud" |
| `RoleFallback.NameMatchesStem` | get_users.py:130 | a project name matches name u iff it ends in " cloud" or " Cloud" and u is what precedes that suffix |
| `RoleFallback.IdsForProject` | get_users.py:129-130 | the inner loop gives only this project's id, and is non-empty iff some name matches |
| `RoleFallback.IdsForProjectCount` | get_users.py:129-130 | the id appears once per occurrence of the name's stem among the leftover names |
| `RoleFallback.IdsForProjectAppend` | get_users.py:129-130 | the inner loop runs over the names in order |
| `RoleFallback.SelectProjectIds` | get_users.py:129-130 | an id is selected iff some project with that id is named some leftover name plus " cloud" or " Cloud" |
| `RoleFallback.SelectProjectIdsSingle` | get_users.py:129-130 | for one project the comprehension is exactly its inner loop, so with the append law and `IdsForProjectCount` each (project, leftover name) pair gives one id |
| `RoleFallback.SelectProjectIdsLength` | get_users.py:129-130 | the number of ids selected is the number of matching (project, leftover name) pairs, repeated names counted again |
| `RoleFallback.RepeatedNameSelectsTwice` | get_users.py:129-130 | a leftover name listed twice selects a matching project twice |
| `RoleFallback.DuplicateLeftoverSelectsTwice` | get_users.py:129-130 | projects "Beta cloud" (p1) and "Beta Cloud" (p2) with leftovers "Beta", "Beta" give p1, p1, p2, p2 |
| `RoleFallback.SelectProjectIdsAppend` | get_users.py:129-130 | the outer loop runs over the projects in order |
| `RoleFallback.UpperCloudNeverSelected` | get_users.py:130 | a project whose name ends in " CLOUD" is never selected, whatever the names |
| `RoleFallback.CaseAsymmetryExample` | get_users.py:75-77 | "Foo CLOUD" gives "Foo" in the primary pass, yet that project is not selected back for "Foo" |
| `RoleFallback.AssignedUserIds` | get_users.py:151 | succeeds iff every assignment has a user, then gives their ids in order |
| `RoleFallback.UsersWithSomeRole` | get_users.py:141-157 | succeeds iff the project has a role-assignment list whose entries all have users; then it classifies those users in order; otherwise the KeyError or the AttributeError |
| `RoleFallback.ClassifyProjects` | get_users.py:132 | succeeds iff every selected project succeeds, giving their lists in order; otherwise it fails with the error of the first failing project |
| `RoleFallback.FoldConcat` | get_users.py:134 | the left fold of `list.__add__` equals the initial list followed by the plain concatenation of the rest |
| `RoleFallback.ReduceConcat` | get_users.py:134 | fails iff the list of lists is empty (the TypeError); otherwise gives the concatenation |
| `RoleFallback.ClassifiedProjectsFlatten` | get_users.py:132-134 | the reduced list classifies exactly the role-assigned user ids of the selected projects, in order |
| `RoleFallback.CountRecovered` | get_users.py:128-138 | fails with the reduce error iff no project is selected; succeeds iff something is selected and every selected project's assignments are readable; the count is the number of Community outcomes among all role-assigned users, so at most their number; any other failure is the error of the first selected project whose assignments cannot be read |
| `RoleFallback.NothingSelected` | get_users.py:129-130 | with no leftover names nothing is selected |
| `RoleFallback.NothingUnresolvedFails` | get_users.py:134 | with no leftover names the fallback fails |
| `Census.ProjectsOfGroup` | get_users.py:68 | the group's project listing when it has one, otherwise the KeyError |
| `Census.PrimaryPass` | get_users.py:160-168 | fails with the region error iff no group names the region; succeeds iff the region resolves and has a listing; then the projects are the eligible ones of the resolved group's listing, the counts are those of the usernames derived from them, conserved and bounded by the number of eligible projects; a resolved group without a listing fails with that group's `ProjectListMissing` |
| `Census.RunCensus` | get_users.py:160-173 | on success, community and total grow by exactly the fallback count and trial is unchanged, so total = trial + community + leftovers; it succeeds iff both passes do; the region error arises iff no group names the region; a failing run reports the primary pass's error if that pass fails, and the fallback's error otherwise |
| `Census.AllResolvedAborts` | get_users.py:167-170 | when the primary pass leaves no name unresolved, the run fails at the reduce |
| `Census.ExampleRun` | get_users.py:160-173 | the Acme/Beta example gives total 3, trial 0, community 2 |
| `Census.ExamplePrimaryPass` | get_users.py:163-168 | the example's primary pass counts 2 users, 1 community, and leaves "Beta" |
| `Census.ExampleRecovery` | get_users.py:128-138 | the example's fallback recovers one community user |
| `Census.ExampleSelect` | get_users.py:129-130 | only "Beta Cloud" is selected for "Beta" |
| `Census.ExampleRoles` | get_users.py:132 | Beta's project has one role-assigned user, classified Community |

## Left out

- HTTP, URL building, headers and JSON decoding: every request is replaced by its decoded response (get_users.py:34-39, 45-51, 61-68, 106-112, 143-149).
- `get_admin_token`: the token is only passed to requests that the model replaces by their responses.
- A name or id that would change the shape of the URL it is appended to (a `/` or `?`, say) is not modelled. The directory key is the name itself.
- `print` output: the model returns the three figures as a `Report`.
- settings.py: the environment lookup, the INI file reading and the exit at import time. The region is a parameter.
- Python's dynamic typing is not modelled. `1 == True` in the eligibility test, non-dict `filters`, and a `user` without `id` in a role assignment are all out. Records carry only the key presence and string values the script reads.
- Exceptions are not modelled as exception types. Each uncaught exception becomes one `Error` value. The bare `except` in `type_user` is modelled by a missing directory entry or a missing key.
- A missing `endpoint_groups` key and a group without `id` are not modelled: the group list and each group's id are taken as present.
- A kept project without `name` is not modelled: `Project.name` is always a string, so the KeyError of the name map (get_users.py:73) cannot arise.
- A selected project without `id` is not modelled: `Project.id` is always a string, so the None id of the comprehension (get_users.py:129) and the TypeError when it is appended to the role-assignment URL (get_users.py:143) cannot arise.
- The region is modelled as decoded text and compared as text. In Python 2 the configured region is a byte string and the `region_id` values from the JSON are unicode. A non-ASCII region therefore never compares equal there, so every group fails the filter and `[0]` raises an IndexError. That byte/unicode mismatch is not captured: `SelectRegionEndpointGroup` succeeds whenever the two texts agree (settings.py:57, 74; get_users.py:53).
- Regex matching is modelled only for this one pattern. It uses ASCII case folding, the folding of Python 2's `re.I` without `re.U`.
