/** Region resolution: `get_region_endpoint_group`. */
module RegionResolver {
  import opened Wrappers
  import opened Keystone

  /** The group's region filter names the region; a group without filters never matches. */
  predicate MatchesRegion(g: EndpointGroup, region: string) {
    g.filters.Some? && g.filters.value.regionId == Some(region)
  }

  /** The Python 2 `filter` over the endpoint groups: the matching groups, in list order. */
  function MatchingGroups(groups: seq<EndpointGroup>, region: string): (r: seq<EndpointGroup>)
    ensures |r| <= |groups|
    ensures forall g :: g in r <==> g in groups && MatchesRegion(g, region)
    ensures r != [] ==>
      exists i :: 0 <= i < |groups| && groups[i] == r[0] &&
        forall j :: 0 <= j < i ==> !MatchesRegion(groups[j], region)
  {
    if groups == [] then []
    else if MatchesRegion(groups[0], region) then [groups[0]] + MatchingGroups(groups[1..], region)
    else
      var rest := MatchingGroups(groups[1..], region);
      assert rest != [] ==> (exists i :: 1 <= i < |groups| && groups[i] == rest[0] &&
                               forall j :: 0 <= j < i ==> !MatchesRegion(groups[j], region)) by {
        if rest != [] {
          var i :| 0 <= i < |groups[1..]| && groups[1..][i] == rest[0] &&
            forall j :: 0 <= j < i ==> !MatchesRegion(groups[1..][j], region);
          assert groups[i + 1] == rest[0];
          forall j | 0 <= j < i + 1 ensures !MatchesRegion(groups[j], region) {
            if j > 0 { assert groups[j] == groups[1..][j - 1]; }
          }
        }
      }
      rest
  }

  /**
   * The id of the first endpoint group whose region filter names `region`;
   * with no such group the `[0]` index fails.
   */
  function SelectRegionEndpointGroup(groups: seq<EndpointGroup>, region: string): (r: Result<string, Error>)
    ensures r.Success? <==> exists g :: g in groups && MatchesRegion(g, region)
    ensures r.Failure? ==> r.error == NoEndpointGroupForRegion
    ensures r.Success? ==>
      exists i :: 0 <= i < |groups| && MatchesRegion(groups[i], region) && groups[i].id == r.value &&
        forall j :: 0 <= j < i ==> !MatchesRegion(groups[j], region)
  {
    var matches := MatchingGroups(groups, region);
    if |matches| == 0 then Failure(NoEndpointGroupForRegion)
    else
      assert matches[0] in matches;
      Success(matches[0].id)
  }

  /** Filtering distributes over concatenation: the matches keep the groups' order. */
  lemma {:induction false} MatchingGroupsAppend(a: seq<EndpointGroup>, b: seq<EndpointGroup>, region: string)
    ensures MatchingGroups(a + b, region) == MatchingGroups(a, region) + MatchingGroups(b, region)
  {
    if a == [] {
      assert a + b == b;
    } else {
      assert (a + b)[1..] == a[1..] + b;
      MatchingGroupsAppend(a[1..], b, region);
    }
  }

  /** A group without a `filters` key can be added anywhere without changing the resolved id. */
  lemma UnfilteredGroupIgnored(a: seq<EndpointGroup>, g: EndpointGroup, b: seq<EndpointGroup>, region: string)
    requires g.filters == None
    ensures SelectRegionEndpointGroup(a + [g] + b, region) == SelectRegionEndpointGroup(a + b, region)
  {
    MatchingGroupsAppend(a + [g], b, region);
    MatchingGroupsAppend(a, [g], region);
    MatchingGroupsAppend(a, b, region);
    assert MatchingGroups([g], region) == [] by {
      assert [g][1..] == [];
    }
  }
}
