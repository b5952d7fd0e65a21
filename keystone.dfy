/**
 * The decoded identity-service responses the census works on. Each HTTP call
 * of the script is replaced by the JSON it would have returned, reduced to
 * the keys the script reads.
 */
module Keystone {
  import opened Wrappers

  /** The `filters` object of an endpoint group; `regionId` is None when it has no `region_id` key. */
  datatype RegionFilter = RegionFilter(regionId: Option<string>)

  /** One entry of `endpoint_groups`; `filters` is None when the group has no `filters` key. */
  datatype EndpointGroup = EndpointGroup(id: string, filters: Option<RegionFilter>)

  /** One entry of `projects`; a flag is None when its key is absent. */
  datatype Project = Project(id: string, name: string, isCloudProject: Option<bool>, enabled: Option<bool>)

  /** The `user` object of a `/v3/users/<name>` response, as the set of keys it carries. */
  datatype UserRecord = UserRecord(keys: set<string>)

  /**
   * The users endpoint: a name or id that is not a key stands for every
   * response from which `['user']` cannot be read (an error body, a body
   * that is not JSON, a `user` that is null).
   */
  type UserDirectory = map<string, UserRecord>

  /** One entry of `role_assignments`; `userId` is None for an entry without a `user` object. */
  datatype RoleAssignment = RoleAssignment(userId: Option<string>)

  /** The role-assignment endpoint, by project id; a missing id has no `role_assignments` key. */
  type RoleAssignmentTable = map<string, seq<RoleAssignment>>

  /** The ways in which the script stops with an uncaught exception. */
  datatype Error =
    | NoEndpointGroupForRegion          // `[0]` on an empty filter result: IndexError
    | ProjectListMissing(groupId: string)    // `['projects']` absent: KeyError
    | RoleAssignmentsMissing(projectId: string)  // `['role_assignments']` absent: KeyError
    | AssignmentWithoutUser(projectId: string)   // `.get('user')` is None: AttributeError
    | EmptyReduce                       // `reduce` of an empty list with no initial value: TypeError
}
