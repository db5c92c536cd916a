/**
 * What the controller's pipeline guarantees, stated against the upstream's
 * answers: which failure answers a request, that nothing is changed
 * upstream unless every check passed, and what the successful answers are.
 */
module ControllerProperties {
  import opened JavaLang
  import opened Http
  import opened RestClient
  import opened GitLabModel
  import opened ApiModel
  import Client = GitLabClient
  import Service = GitLabService
  import opened GroupVariablesController

  /** The caller's token names a user: it has text and the upstream returns the user. */
  predicate UserResolved(token: JString, up: Upstream) {
    HasText(token) && up.user.Returns?
  }

  /** The caller's first membership of the group exists and is at least MAINTAINER. */
  predicate IsMaintainerOf(up: Upstream, groupId: int) {
    && Listed(up.memberships)
    && var m := FindFirstMembership(Items(up.memberships), groupId);
       m.Some? && m.value.permission.rank >= MAINTAINER.rank
  }

  /** Some request changes upstream state. */
  predicate Mutates(sent: seq<HttpRequest>) {
    exists i :: 0 <= i < |sent| && IsMutating(sent[i].verb)
  }

  lemma ReadOnlyAppend(a: seq<HttpRequest>, b: seq<HttpRequest>)
    requires ReadOnly(a) && ReadOnly(b)
    ensures ReadOnly(a + b) && !Mutates(a + b)
  {
  }

  // ---------------------------------------------------------------------------
  // The steps

  /**
   * getGroupMembership: a null membership list is a server error, distinct
   * from an empty one; no membership of the group means "not a member"; a
   * first membership below MAINTAINER means "insufficient permission".
   */
  lemma MembershipStep(service: Service.GitLabService, user: GLUser, groupId: int, up: Upstream)
    ensures ReadOnly(GetGroupMembership(service, user, groupId, up).sent)
    ensures GetGroupMembership(service, user, groupId, up).outcome.Ok? <==> IsMaintainerOf(up, groupId)
    ensures IsMaintainerOf(up, groupId) ==>
              GetGroupMembership(service, user, groupId, up).outcome == Ok(FindFirstMembership(Items(up.memberships), groupId).value)
    ensures GetGroupMembership(service, user, groupId, up).outcome.Ok? ==>
              GetGroupMembership(service, user, groupId, up).outcome.value.sourceId == groupId
    ensures Client.Stop(up.memberships).Some? ==>
              GetGroupMembership(service, user, groupId, up).outcome.Failed? &&
              GetGroupMembership(service, user, groupId, up).outcome.failure == ListOutcome(up.memberships, MembershipsUnavailable).failure
    ensures Listed(up.memberships) && FindFirstMembership(Items(up.memberships), groupId).None? ==>
              GetGroupMembership(service, user, groupId, up).outcome == Failed(Rejected(UNAUTHORIZED, NotMember))
    ensures Listed(up.memberships) && FindFirstMembership(Items(up.memberships), groupId).Some? &&
            FindFirstMembership(Items(up.memberships), groupId).value.permission.rank < MAINTAINER.rank ==>
              GetGroupMembership(service, user, groupId, up).outcome == Failed(Rejected(UNAUTHORIZED, InsufficientPermission))
  {
  }

  /** An empty membership list is "not a member", whatever the group. */
  lemma EmptyMembershipsNotMember(service: Service.GitLabService, user: GLUser, groupId: int, up: Upstream)
    requires up.memberships == Client.Final([])
    ensures GetGroupMembership(service, user, groupId, up).outcome == Failed(Rejected(UNAUTHORIZED, NotMember))
  {
    Client.FlattenSingle<GLMembership>([]);
    MembershipStep(service, user, groupId, up);
  }

  /** The shared create/update pipeline: reads only, and reaches the variables exactly when every check passed. */
  lemma PrepareStep(service: Service.GitLabService, token: JString, groupId: int, variable: Variable, up: Upstream)
    ensures ReadOnly(Prepare(service, token, groupId, variable, up).sent)
    ensures Prepare(service, token, groupId, variable, up).outcome.Ok? <==>
              UserResolved(token, up) && CheckVariable(variable).None? && IsMaintainerOf(up, groupId) && Listed(up.variables)
    ensures Prepare(service, token, groupId, variable, up).outcome.Ok? ==>
              Prepare(service, token, groupId, variable, up).outcome.value == Items(up.variables)
  {
    if UserResolved(token, up) && CheckVariable(variable).None? {
      var user := up.user.value;
      var u := GetUser(service, token, up);
      var m := GetGroupMembership(service, user, groupId, up);
      MembershipStep(service, user, groupId, up);
      if m.outcome.Ok? {
        var vs := GetGroupVariables(service, m.outcome.value, up);
        ReadOnlyAppend(u.sent, m.sent);
        ReadOnlyAppend(u.sent + m.sent, vs.sent);
      } else {
        ReadOnlyAppend(u.sent, m.sent);
      }
    }
  }

  // ---------------------------------------------------------------------------
  // The pipeline

  /** A blank token makes every endpoint throw IllegalStateException having sent nothing: it is never answered 401. */
  lemma BlankTokenNeverUnauthorized(service: Service.GitLabService, token: JString, groupId: int, variable: Variable,
                                    key: JString, up: Upstream)
    requires !HasText(token)
    ensures GetGroups(service, token, up) == Reply(Failed(Crashed(IllegalState)), [])
    ensures ListGroupVariables(service, token, groupId, up) == Reply(Failed(Crashed(IllegalState)), [])
    ensures CreateGroupVariable(service, token, groupId, variable, up) == Reply(Failed(Crashed(IllegalState)), [])
    ensures UpdateGroupVariable(service, token, groupId, variable, up) == Reply(Failed(Crashed(IllegalState)), [])
    ensures DeleteGroupVariable(service, token, groupId, key, up) == Reply(Failed(Crashed(IllegalState)), [])
  {
  }

  /** A token the upstream refuses is answered 401 by every endpoint, after the one GET /user. */
  lemma InvalidTokenUnauthorized(service: Service.GitLabService, token: JString, groupId: int, variable: Variable,
                                 key: JString, up: Upstream)
    requires HasText(token) && up.user.Throws? && IsRestClientException(up.user.error)
    ensures var r := GetGroups(service, token, up); r.outcome == Failed(Rejected(UNAUTHORIZED, InvalidToken)) && |r.sent| == 1
    ensures var r := ListGroupVariables(service, token, groupId, up); r.outcome == Failed(Rejected(UNAUTHORIZED, InvalidToken)) && |r.sent| == 1
    ensures var r := CreateGroupVariable(service, token, groupId, variable, up); r.outcome == Failed(Rejected(UNAUTHORIZED, InvalidToken)) && |r.sent| == 1
    ensures var r := UpdateGroupVariable(service, token, groupId, variable, up); r.outcome == Failed(Rejected(UNAUTHORIZED, InvalidToken)) && |r.sent| == 1
    ensures var r := DeleteGroupVariable(service, token, groupId, key, up); r.outcome == Failed(Rejected(UNAUTHORIZED, InvalidToken)) && |r.sent| == 1
  {
  }

  /** An invalid variable is refused 400 right after the user is resolved, before any membership lookup. */
  lemma ValidationBeforeMembership(service: Service.GitLabService, token: JString, groupId: int, variable: Variable, up: Upstream)
    requires UserResolved(token, up) && CheckVariable(variable).Some?
    ensures var r := CreateGroupVariable(service, token, groupId, variable, up);
            r.outcome == Failed(Rejected(BAD_REQUEST, CheckVariable(variable).value)) && |r.sent| == 1
    ensures var r := UpdateGroupVariable(service, token, groupId, variable, up);
            r.outcome == Failed(Rejected(BAD_REQUEST, CheckVariable(variable).value)) && |r.sent| == 1
  {
  }

  /** Delete refuses a blank key 400 right after the user is resolved, before any membership lookup. */
  lemma DeleteKeyBeforeMembership(service: Service.GitLabService, token: JString, groupId: int, key: JString, up: Upstream)
    requires UserResolved(token, up) && !HasText(key)
    ensures var r := DeleteGroupVariable(service, token, groupId, key, up);
            r.outcome == Failed(Rejected(BAD_REQUEST, MissingKey)) && |r.sent| == 1
  {
  }

  /**
   * Without a MAINTAINER membership of the group, every group endpoint,
   * listing included, answers what getGroupMembership refused with and
   * changes nothing upstream.
   */
  lemma MembershipGate(service: Service.GitLabService, token: JString, groupId: int, variable: Variable, key: JString, up: Upstream)
    requires UserResolved(token, up) && !IsMaintainerOf(up, groupId)
    ensures var m := GetGroupMembership(service, up.user.value, groupId, up).outcome;
            && m.Failed?
            && ListGroupVariables(service, token, groupId, up).outcome == Failed(m.failure)
            && (CheckVariable(variable).None? ==>
                  && CreateGroupVariable(service, token, groupId, variable, up).outcome == Failed(m.failure)
                  && UpdateGroupVariable(service, token, groupId, variable, up).outcome == Failed(m.failure))
            && (HasText(key) ==> DeleteGroupVariable(service, token, groupId, key, up).outcome == Failed(m.failure))
    ensures var sent := GetUser(service, token, up).sent + GetGroupMembership(service, up.user.value, groupId, up).sent;
            && ListGroupVariables(service, token, groupId, up).sent == sent
            && (CheckVariable(variable).None? ==>
                  && CreateGroupVariable(service, token, groupId, variable, up).sent == sent
                  && UpdateGroupVariable(service, token, groupId, variable, up).sent == sent)
            && (HasText(key) ==> DeleteGroupVariable(service, token, groupId, key, up).sent == sent)
    ensures !Mutates(ListGroupVariables(service, token, groupId, up).sent)
    ensures !Mutates(CreateGroupVariable(service, token, groupId, variable, up).sent)
    ensures !Mutates(UpdateGroupVariable(service, token, groupId, variable, up).sent)
    ensures !Mutates(DeleteGroupVariable(service, token, groupId, key, up).sent)
  {
    var user := up.user.value;
    MembershipStep(service, user, groupId, up);
    PrepareStep(service, token, groupId, variable, up);
    ReadOnlyAppend(GetUser(service, token, up).sent, GetGroupMembership(service, user, groupId, up).sent);
  }

  /**
   * When every earlier check passed but the group's variables could not be
   * read, every group endpoint answers that failure (500 for null, or the
   * exception) and changes nothing upstream.
   */
  lemma VariablesFailureAnswered(service: Service.GitLabService, token: JString, groupId: int, variable: Variable,
                                 key: JString, up: Upstream)
    requires UserResolved(token, up) && IsMaintainerOf(up, groupId) && !Listed(up.variables)
    ensures var f := ListOutcome(up.variables, VariablesUnavailable).failure;
            && ListGroupVariables(service, token, groupId, up).outcome == Failed(f)
            && (CheckVariable(variable).None? ==>
                  && CreateGroupVariable(service, token, groupId, variable, up).outcome == Failed(f)
                  && UpdateGroupVariable(service, token, groupId, variable, up).outcome == Failed(f))
            && (HasText(key) ==> DeleteGroupVariable(service, token, groupId, key, up).outcome == Failed(f))
    ensures !Mutates(CreateGroupVariable(service, token, groupId, variable, up).sent)
    ensures !Mutates(UpdateGroupVariable(service, token, groupId, variable, up).sent)
    ensures !Mutates(DeleteGroupVariable(service, token, groupId, key, up).sent)
  {
    var user := up.user.value;
    MembershipStep(service, user, groupId, up);
    PrepareStep(service, token, groupId, variable, up);
    var m := GetGroupMembership(service, user, groupId, up);
    var vs := GetGroupVariables(service, m.outcome.value, up);
    ReadOnlyAppend(GetUser(service, token, up).sent, m.sent);
    ReadOnlyAppend(GetUser(service, token, up).sent + m.sent, vs.sent);
  }

  /**
   * Listing a group's variables succeeds exactly for a MAINTAINER, and
   * answers every variable, in order; the variables read are those of the
   * group asked for.
   */
  lemma ReadRequiresMaintainer(service: Service.GitLabService, token: JString, groupId: int, up: Upstream)
    ensures ListGroupVariables(service, token, groupId, up).outcome.Ok? <==>
              UserResolved(token, up) && IsMaintainerOf(up, groupId) && Listed(up.variables)
    ensures ListGroupVariables(service, token, groupId, up).outcome.Ok? ==>
              ListGroupVariables(service, token, groupId, up).outcome.value == ToVariables(Items(up.variables))
    ensures !Mutates(ListGroupVariables(service, token, groupId, up).sent)
    ensures UserResolved(token, up) && IsMaintainerOf(up, groupId) ==>
              ListGroupVariables(service, token, groupId, up).sent ==
                GetUser(service, token, up).sent + GetGroupMembership(service, up.user.value, groupId, up).sent +
                ([Client.FirstListRequest(service.client, "/groups/{groupId}/variables", GET, map["groupId" := IntToString(groupId)])]
                 + Client.FollowUpRequests(service.client, GET, Client.NextLinks(up.variables)))
  {
    if UserResolved(token, up) {
      var user := up.user.value;
      var u := GetUser(service, token, up);
      var m := GetGroupMembership(service, user, groupId, up);
      MembershipStep(service, user, groupId, up);
      ReadOnlyAppend(u.sent, m.sent);
      if m.outcome.Ok? {
        var vs := GetGroupVariables(service, m.outcome.value, up);
        ReadOnlyAppend(u.sent + m.sent, vs.sent);
      }
    }
  }

  /** GET /groups answers one Group per membership, in order and unfiltered; a null list is a server error. */
  lemma GroupsAreMemberships(service: Service.GitLabService, token: JString, up: Upstream)
    ensures GetGroups(service, token, up).outcome.Ok? <==> UserResolved(token, up) && Listed(up.memberships)
    ensures GetGroups(service, token, up).outcome.Ok? ==>
              var gs := GetGroups(service, token, up).outcome.value;
              var ms := Items(up.memberships);
              |gs| == |ms| && forall i :: 0 <= i < |ms| ==> gs[i] == Group(ms[i].sourceId, ms[i].sourceName, ms[i].permission)
    ensures UserResolved(token, up) && Client.Stop(up.memberships).Some? && IsRestClientException(Client.Stop(up.memberships).value) ==>
              GetGroups(service, token, up).outcome == Failed(Rejected(INTERNAL_SERVER_ERROR, MembershipsUnavailable))
    ensures !Mutates(GetGroups(service, token, up).sent)
  {
    if UserResolved(token, up) {
      var user := up.user.value;
      ReadOnlyAppend(GetUser(service, token, up).sent, GetGroupMemberships(service, user, up).sent);
    }
  }

  /** Every check passed for a create: the key is new to the group. */
  predicate CreateAuthorized(token: JString, groupId: int, variable: Variable, up: Upstream) {
    && UserResolved(token, up) && CheckVariable(variable).None? && IsMaintainerOf(up, groupId) && Listed(up.variables)
    && !HasKey(Items(up.variables), variable.key.value)
  }

  /** Every check passed for an update: the key exists in the group. */
  predicate UpdateAuthorized(token: JString, groupId: int, variable: Variable, up: Upstream) {
    && UserResolved(token, up) && CheckVariable(variable).None? && IsMaintainerOf(up, groupId) && Listed(up.variables)
    && HasKey(Items(up.variables), variable.key.value)
  }

  /** Every check passed for a delete: the key has text and exists in the group. */
  predicate DeleteAuthorized(token: JString, groupId: int, key: JString, up: Upstream) {
    && UserResolved(token, up) && HasText(key) && IsMaintainerOf(up, groupId) && Listed(up.variables)
    && HasKey(Items(up.variables), key.value)
  }

  /**
   * Create sends its POST exactly when every check passed, and then answers
   * the created variable, or 500 for null; a key that already exists is
   * refused 400 whatever its value.
   */
  lemma CreateOnlyWhenAuthorized(service: Service.GitLabService, token: JString, groupId: int, variable: Variable, up: Upstream)
    ensures Mutates(CreateGroupVariable(service, token, groupId, variable, up).sent) <==>
              CreateAuthorized(token, groupId, variable, up)
    ensures CreateAuthorized(token, groupId, variable, up) ==>
              CreateGroupVariable(service, token, groupId, variable, up).outcome ==
                (if up.created.Returns? then Ok(FromGLVariable(up.created.value))
                 else Failed(Rejected(INTERNAL_SERVER_ERROR, CreateFailed)))
    ensures Prepare(service, token, groupId, variable, up).outcome.Ok? && HasKey(Items(up.variables), variable.key.value) ==>
              CreateGroupVariable(service, token, groupId, variable, up).outcome == Failed(Rejected(BAD_REQUEST, AlreadyExists))
    ensures CreateAuthorized(token, groupId, variable, up) ==>
              var s := CreateGroupVariable(service, token, groupId, variable, up).sent;
              |s| >= 1 && s[|s| - 1] == CreateRequestFor(service, groupId, variable) && ReadOnly(s[..|s| - 1])
  {
    CreateSendsItsRequest(service, token, groupId, variable, up);
    var p := Prepare(service, token, groupId, variable, up);
    PrepareStep(service, token, groupId, variable, up);
    if p.outcome.Ok? && !HasKey(p.outcome.value, variable.key.value) {
      var c := Service.CreateGroupVariable(service, groupId, variable.key.value, variable.value.value,
                                           variable.variableType, variable.isProtected, variable.isMasked,
                                           variable.environmentScope, up.created);
      assert CreateGroupVariable(service, token, groupId, variable, up).sent == p.sent + c.requests;
      assert (p.sent + c.requests)[|p.sent|] == c.requests[0];
    }
  }

  /**
   * Update sends its PUT exactly when every check passed, and then answers
   * the updated variable, or 500 for null; an unknown key is refused 400.
   */
  lemma UpdateOnlyWhenAuthorized(service: Service.GitLabService, token: JString, groupId: int, variable: Variable, up: Upstream)
    ensures Mutates(UpdateGroupVariable(service, token, groupId, variable, up).sent) <==>
              UpdateAuthorized(token, groupId, variable, up)
    ensures UpdateAuthorized(token, groupId, variable, up) ==>
              UpdateGroupVariable(service, token, groupId, variable, up).outcome ==
                (if up.updated.Returns? then Ok(FromGLVariable(up.updated.value))
                 else Failed(Rejected(INTERNAL_SERVER_ERROR, UpdateFailed)))
    ensures Prepare(service, token, groupId, variable, up).outcome.Ok? && !HasKey(Items(up.variables), variable.key.value) ==>
              UpdateGroupVariable(service, token, groupId, variable, up).outcome == Failed(Rejected(BAD_REQUEST, DoesNotExist))
    ensures UpdateAuthorized(token, groupId, variable, up) ==>
              var s := UpdateGroupVariable(service, token, groupId, variable, up).sent;
              |s| >= 1 && s[|s| - 1] == UpdateRequestFor(service, groupId, variable) && ReadOnly(s[..|s| - 1])
  {
    UpdateSendsItsRequest(service, token, groupId, variable, up);
    var p := Prepare(service, token, groupId, variable, up);
    PrepareStep(service, token, groupId, variable, up);
    if p.outcome.Ok? && HasKey(p.outcome.value, variable.key.value) {
      var c := Service.UpdateGroupVariable(service, groupId, variable.key.value, variable.value.value,
                                           variable.variableType, variable.isProtected, variable.isMasked,
                                           variable.environmentScope, up.updated);
      assert UpdateGroupVariable(service, token, groupId, variable, up).sent == p.sent + c.requests;
      assert (p.sent + c.requests)[|p.sent|] == c.requests[0];
    }
  }

  /**
   * Delete sends its DELETE exactly when every check passed, and then
   * answers nothing, or 500 when the call failed; an unknown key is refused 400.
   */
  lemma DeleteOnlyWhenAuthorized(service: Service.GitLabService, token: JString, groupId: int, key: JString, up: Upstream)
    ensures Mutates(DeleteGroupVariable(service, token, groupId, key, up).sent) <==> DeleteAuthorized(token, groupId, key, up)
    ensures DeleteAuthorized(token, groupId, key, up) ==>
              DeleteGroupVariable(service, token, groupId, key, up).outcome ==
                (if up.deleted.Returns? then Ok(()) else Failed(Rejected(INTERNAL_SERVER_ERROR, DeleteFailed)))
    ensures UserResolved(token, up) && HasText(key) && IsMaintainerOf(up, groupId) && Listed(up.variables) &&
            !HasKey(Items(up.variables), key.value) ==>
              DeleteGroupVariable(service, token, groupId, key, up).outcome == Failed(Rejected(BAD_REQUEST, DoesNotExist))
    ensures DeleteAuthorized(token, groupId, key, up) ==>
              var s := DeleteGroupVariable(service, token, groupId, key, up).sent;
              |s| >= 1 && s[|s| - 1] == Service.DeleteVariableRequest(service, groupId, key.value) && ReadOnly(s[..|s| - 1])
  {
    DeleteSendsItsRequest(service, token, groupId, key, up);
    if UserResolved(token, up) && HasText(key) {
      var user := up.user.value;
      var u := GetUser(service, token, up);
      var m := GetGroupMembership(service, user, groupId, up);
      MembershipStep(service, user, groupId, up);
      ReadOnlyAppend(u.sent, m.sent);
      if m.outcome.Ok? {
        var vs := GetGroupVariables(service, m.outcome.value, up);
        ReadOnlyAppend(u.sent + m.sent, vs.sent);
        var sent := u.sent + m.sent + vs.sent;
        if vs.outcome.Ok? && HasKey(vs.outcome.value, key.value) {
          var c := Service.DeleteGroupVariable(service, groupId, key.value, up.deleted);
          assert c.requests[0].verb == DELETE;
          assert (sent + c.requests)[|sent|] == c.requests[0];
        }
      }
    }
  }

  /**
   * An authorized create sends, after its reads, exactly the POST of the
   * variable's key, value and attributes to the variables URL of the group
   * whose membership was checked.
   */
  lemma CreateSendsItsRequest(service: Service.GitLabService, token: JString, groupId: int, variable: Variable, up: Upstream)
    ensures CreateAuthorized(token, groupId, variable, up) ==>
              var s := CreateGroupVariable(service, token, groupId, variable, up).sent;
              |s| >= 1 && s[|s| - 1] == CreateRequestFor(service, groupId, variable) && ReadOnly(s[..|s| - 1])
  {
    if CreateAuthorized(token, groupId, variable, up) {
      var p := Prepare(service, token, groupId, variable, up);
      PrepareStep(service, token, groupId, variable, up);
      assert (p.sent + [CreateRequestFor(service, groupId, variable)])[..|p.sent|] == p.sent;
    }
  }

  /** An authorized update sends, after its reads, exactly the PUT of the variable to its key's URL in the group. */
  lemma UpdateSendsItsRequest(service: Service.GitLabService, token: JString, groupId: int, variable: Variable, up: Upstream)
    ensures UpdateAuthorized(token, groupId, variable, up) ==>
              var s := UpdateGroupVariable(service, token, groupId, variable, up).sent;
              |s| >= 1 && s[|s| - 1] == UpdateRequestFor(service, groupId, variable) && ReadOnly(s[..|s| - 1])
  {
    if UpdateAuthorized(token, groupId, variable, up) {
      var p := Prepare(service, token, groupId, variable, up);
      PrepareStep(service, token, groupId, variable, up);
      assert (p.sent + [UpdateRequestFor(service, groupId, variable)])[..|p.sent|] == p.sent;
    }
  }

  /** An authorized delete sends, after its reads, exactly the DELETE of the key's URL in the group. */
  lemma DeleteSendsItsRequest(service: Service.GitLabService, token: JString, groupId: int, key: JString, up: Upstream)
    ensures DeleteAuthorized(token, groupId, key, up) ==>
              var s := DeleteGroupVariable(service, token, groupId, key, up).sent;
              |s| >= 1 && s[|s| - 1] == Service.DeleteVariableRequest(service, groupId, key.value) && ReadOnly(s[..|s| - 1])
  {
    if DeleteAuthorized(token, groupId, key, up) {
      var user := up.user.value;
      var u := GetUser(service, token, up);
      var m := GetGroupMembership(service, user, groupId, up);
      MembershipStep(service, user, groupId, up);
      var vs := GetGroupVariables(service, m.outcome.value, up);
      ReadOnlyAppend(u.sent, m.sent);
      ReadOnlyAppend(u.sent + m.sent, vs.sent);
      var sent := u.sent + m.sent + vs.sent;
      assert (sent + [Service.DeleteVariableRequest(service, groupId, key.value)])[..|sent|] == sent;
    }
  }
}
