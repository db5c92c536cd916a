/**
 * GroupVariablesController: the helper's HTTP endpoints.  Every endpoint
 * runs a short-circuit pipeline (resolve the caller's user, validate the
 * input, find the caller's membership of the group, require MAINTAINER,
 * fetch the group's variables, check the key, delegate) in which the first
 * failure is the answer.
 *
 * An endpoint is a function of the request and of what the upstream GitLab
 * answers; it yields the outcome and the upstream requests that were sent.
 */
module GroupVariablesController {
  import opened JavaLang
  import opened Http
  import opened RestClient
  import opened GitLabModel
  import opened ApiModel
  import Client = GitLabClient
  import Service = GitLabService

  /** The HTTP statuses of the ResponseStatusExceptions the controller raises. */
  datatype Status = BAD_REQUEST | UNAUTHORIZED | INTERNAL_SERVER_ERROR

  /** Why a request was refused: one per ResponseStatusException message. */
  datatype Reason =
    | InvalidToken | NotMember | InsufficientPermission
    | MembershipsUnavailable | VariablesUnavailable
    | MissingKey | MissingValue | NotMaskable
    | AlreadyExists | DoesNotExist
    | CreateFailed | UpdateFailed | DeleteFailed

  /** How an endpoint fails: a ResponseStatusException, or another exception passing through. */
  datatype Failure = Rejected(status: Status, reason: Reason) | Crashed(error: Exception)

  datatype Outcome<+T> = Ok(value: T) | Failed(failure: Failure)

  /** The status each reason is raised with. */
  function StatusOf(reason: Reason): Status {
    match reason
    case InvalidToken => UNAUTHORIZED
    case NotMember => UNAUTHORIZED
    case InsufficientPermission => UNAUTHORIZED
    case MembershipsUnavailable => INTERNAL_SERVER_ERROR
    case VariablesUnavailable => INTERNAL_SERVER_ERROR
    case CreateFailed => INTERNAL_SERVER_ERROR
    case UpdateFailed => INTERNAL_SERVER_ERROR
    case DeleteFailed => INTERNAL_SERVER_ERROR
    case _ => BAD_REQUEST
  }

  /** A refusal carries the status that belongs to its reason. */
  predicate Classified<T>(o: Outcome<T>) {
    o.Failed? && o.failure.Rejected? ==> o.failure.status == StatusOf(o.failure.reason)
  }

  /** An endpoint's (or a step's) outcome and the upstream requests it sent, in order. */
  datatype Reply<+T> = Reply(outcome: Outcome<T>, sent: seq<HttpRequest>)

  /** What the upstream answers to each call an endpoint can make. */
  datatype Upstream = Upstream(
    user: Call<GLUser>,
    memberships: Client.PageChain<GLMembership>,
    variables: Client.PageChain<GLVariable>,
    created: Call<GLVariable>,
    updated: Call<GLVariable>,
    deleted: Call<()>)

  /** A service result that may be null: null is refused with the given status and reason. */
  function Expect<T>(c: ClientCall<Call<Option<T>>>, status: Status, reason: Reason): (r: Reply<T>)
    requires status == StatusOf(reason)
    ensures Classified(r.outcome)
    ensures r.sent == c.requests
    ensures c.result == Returns(None) ==> r.outcome == Failed(Rejected(status, reason))
    ensures c.result.Returns? && c.result.value.Some? ==> r.outcome == Ok(c.result.value.value)
    ensures c.result.Throws? ==> r.outcome == Failed(Crashed(c.result.error))
  {
    match c.result
    case Throws(e) => Reply(Failed(Crashed(e)), c.requests)
    case Returns(None) => Reply(Failed(Rejected(status, reason)), c.requests)
    case Returns(Some(x)) => Reply(Ok(x), c.requests)
  }

  /** Every request only reads. */
  predicate ReadOnly(sent: seq<HttpRequest>) {
    forall i :: 0 <= i < |sent| ==> sent[i].verb == GET
  }

  /** Every page of a list arrived. */
  predicate Listed<T>(pages: Client.PageChain<T>) {
    Client.Stop(pages).None?
  }

  /** The items of a list whose pages all arrived. */
  function Items<T>(pages: Client.PageChain<T>): seq<T> {
    Client.Flatten(Client.Bodies(pages))
  }

  /** What a paginated list read yields at the controller: the items, a refusal for null, or the exception. */
  function ListOutcome<T>(pages: Client.PageChain<T>, reason: Reason): Outcome<seq<T>> {
    match Client.Stop(pages)
    case None => Ok(Items(pages))
    case Some(e) => Failed(if IsRestClientException(e) then Rejected(INTERNAL_SERVER_ERROR, reason) else Crashed(e))
  }

  // ---------------------------------------------------------------------------
  // The steps

  /**
   * getUser: a blank token throws IllegalStateException before any request;
   * any other token sends one GET, and a null user (the upstream refused the
   * token) is an invalid token.
   */
  function GetUser(service: Service.GitLabService, token: JString, up: Upstream): (r: Reply<GLUser>)
    ensures Classified(r.outcome)
    ensures !HasText(token) ==> r == Reply(Failed(Crashed(IllegalState)), [])
    ensures HasText(token) ==> |r.sent| == 1 && ReadOnly(r.sent)
    ensures r.outcome.Ok? <==> HasText(token) && up.user.Returns?
    ensures r.outcome.Ok? ==> r.outcome.value == up.user.value
    ensures HasText(token) && up.user.Throws? ==>
              r.outcome == Failed(if IsRestClientException(up.user.error) then Rejected(UNAUTHORIZED, InvalidToken)
                                  else Crashed(up.user.error))
  {
    Client.BlankTokenThrows(service.client, token, up.user);
    Expect(Service.GetUser(service, token, up.user), UNAUTHORIZED, InvalidToken)
  }

  /**
   * getGroupMemberships: only GETs, the first to the user's namespace
   * memberships, then one per next link; a null list means the memberships
   * could not be retrieved.
   */
  function GetGroupMemberships(service: Service.GitLabService, user: GLUser, up: Upstream): (r: Reply<seq<GLMembership>>)
    ensures Classified(r.outcome)
    ensures |r.sent| >= 1 && ReadOnly(r.sent)
    ensures r.sent == [Client.FirstListRequest(service.client, "/users/{userId}/memberships?type=Namespace", GET,
                                               map["userId" := IntToString(user.id)])]
                      + Client.FollowUpRequests(service.client, GET, Client.NextLinks(up.memberships))
    ensures r.outcome == ListOutcome(up.memberships, MembershipsUnavailable)
  {
    Client.ReadListResult(service.client, "/users/{userId}/memberships?type=Namespace", GET,
                          Client.IdUriVariables("userId", user.id), Some([]), up.memberships);
    Client.ReadListRequests(service.client, "/users/{userId}/memberships?type=Namespace", GET,
                            Client.IdUriVariables("userId", user.id), Some([]), up.memberships);
    Expect(Service.GetGroupMemberships(service, user.id, up.memberships), INTERNAL_SERVER_ERROR, MembershipsUnavailable)
  }

  /** The first membership whose group is groupId, if there is one. */
  function FindFirstMembership(ms: seq<GLMembership>, groupId: int): (r: Option<GLMembership>)
    ensures r.None? <==> forall i :: 0 <= i < |ms| ==> ms[i].sourceId != groupId
    ensures r.Some? ==> exists i :: 0 <= i < |ms| && ms[i] == r.value && ms[i].sourceId == groupId &&
                                    forall j :: 0 <= j < i ==> ms[j].sourceId != groupId
  {
    if ms == [] then None
    else if ms[0].sourceId == groupId then Some(ms[0])
    else
      var r := FindFirstMembership(ms[1..], groupId);
      assert forall i :: 1 <= i < |ms| ==> ms[1..][i - 1] == ms[i];
      r
  }

  /** getGroupMembership: the first membership of the group, which must be at least MAINTAINER. */
  function GetGroupMembership(service: Service.GitLabService, user: GLUser, groupId: int, up: Upstream): (r: Reply<GLMembership>)
    ensures Classified(r.outcome)
  {
    var r := GetGroupMemberships(service, user, up);
    match r.outcome
    case Failed(f) => Reply(Failed(f), r.sent)
    case Ok(ms) =>
      match FindFirstMembership(ms, groupId)
      case None => Reply(Failed(Rejected(UNAUTHORIZED, NotMember)), r.sent)
      case Some(m) =>
        if CompareAccessLevel(m.permission, MAINTAINER) < 0 then Reply(Failed(Rejected(UNAUTHORIZED, InsufficientPermission)), r.sent)
        else Reply(Ok(m), r.sent)
  }

  /**
   * getGroupVariables: only GETs, the first to the variables of the
   * membership's group, then one per next link; a null list is a server error.
   */
  function GetGroupVariables(service: Service.GitLabService, membership: GLMembership, up: Upstream): (r: Reply<seq<GLVariable>>)
    ensures Classified(r.outcome)
    ensures |r.sent| >= 1 && ReadOnly(r.sent)
    ensures r.sent == [Client.FirstListRequest(service.client, "/groups/{groupId}/variables", GET,
                                               map["groupId" := IntToString(membership.sourceId)])]
                      + Client.FollowUpRequests(service.client, GET, Client.NextLinks(up.variables))
    ensures r.outcome == ListOutcome(up.variables, VariablesUnavailable)
  {
    Client.ReadListResult(service.client, "/groups/{groupId}/variables", GET,
                          Client.IdUriVariables("groupId", membership.sourceId), Some([]), up.variables);
    Client.ReadListRequests(service.client, "/groups/{groupId}/variables", GET,
                            Client.IdUriVariables("groupId", membership.sourceId), Some([]), up.variables);
    Expect(Service.GetGroupVariables(service, membership.sourceId, up.variables), INTERNAL_SERVER_ERROR, VariablesUnavailable)
  }

  /**
   * checkVariable: a blank key, else a blank value, else a value flagged
   * masked that is not maskable.  A null or false masked flag is never
   * checked against the pattern.
   */
  function CheckVariable(v: Variable): (r: Option<Reason>)
    ensures r == Some(MissingKey) <==> !HasText(v.key)
    ensures r == Some(MissingValue) <==> HasText(v.key) && !HasText(v.value)
    ensures r == Some(NotMaskable) <==> HasText(v.key) && HasText(v.value) && v.isMasked == Some(true) && !IsValueMaskable(v.value)
    ensures r.None? <==> HasText(v.key) && HasText(v.value) && (v.isMasked == Some(true) ==> IsValueMaskable(v.value))
    ensures r.Some? ==> r.value in {MissingKey, MissingValue, NotMaskable}
  {
    if !HasText(v.key) then Some(MissingKey)
    else if !HasText(v.value) then Some(MissingValue)
    else if v.isMasked.Some? && v.isMasked.value && !IsValueMaskable(v.value) then Some(NotMaskable)
    else None
  }

  /** Some variable of the group has the given key. */
  predicate HasKey(vs: seq<GLVariable>, key: string) {
    exists i :: 0 <= i < |vs| && vs[i].key == key
  }

  // ---------------------------------------------------------------------------
  // The endpoints

  /** GET /groups: one Group per membership, in order, without a permission filter. */
  function GetGroups(service: Service.GitLabService, token: JString, up: Upstream): (r: Reply<seq<Group>>)
    ensures Classified(r.outcome)
  {
    var u := GetUser(service, token, up);
    match u.outcome
    case Failed(f) => Reply(Failed(f), u.sent)
    case Ok(user) =>
      var ms := GetGroupMemberships(service, user, up);
      match ms.outcome
      case Failed(f) => Reply(Failed(f), u.sent + ms.sent)
      case Ok(list) => Reply(Ok(ToGroups(list)), u.sent + ms.sent)
  }

  function ToGroups(ms: seq<GLMembership>): (gs: seq<Group>)
    ensures |gs| == |ms|
    ensures forall i :: 0 <= i < |ms| ==> gs[i] == Group(ms[i].sourceId, ms[i].sourceName, ms[i].permission)
  {
    if ms == [] then [] else [Group(ms[0].sourceId, ms[0].sourceName, ms[0].permission)] + ToGroups(ms[1..])
  }

  function ToVariables(vs: seq<GLVariable>): (r: seq<Variable>)
    ensures |r| == |vs|
    ensures forall i :: 0 <= i < |vs| ==> r[i] == FromGLVariable(vs[i])
  {
    if vs == [] then [] else [FromGLVariable(vs[0])] + ToVariables(vs[1..])
  }

  /** GET /groups/{groupId}/variables: goes through getGroupMembership, so it needs MAINTAINER too. */
  function ListGroupVariables(service: Service.GitLabService, token: JString, groupId: int, up: Upstream): (r: Reply<seq<Variable>>)
    ensures Classified(r.outcome)
  {
    var u := GetUser(service, token, up);
    match u.outcome
    case Failed(f) => Reply(Failed(f), u.sent)
    case Ok(user) =>
      var m := GetGroupMembership(service, user, groupId, up);
      match m.outcome
      case Failed(f) => Reply(Failed(f), u.sent + m.sent)
      case Ok(membership) =>
        var vs := GetGroupVariables(service, membership, up);
        match vs.outcome
        case Failed(f) => Reply(Failed(f), u.sent + m.sent + vs.sent)
        case Ok(list) => Reply(Ok(ToVariables(list)), u.sent + m.sent + vs.sent)
  }

  /**
   * The part create and update share: user, checkVariable, membership and
   * variables, in this order, the first failure ending the pipeline.
   */
  function Prepare(service: Service.GitLabService, token: JString, groupId: int, variable: Variable, up: Upstream)
    : (r: Reply<seq<GLVariable>>)
    ensures r.outcome.Ok? ==> CheckVariable(variable).None?
    ensures Classified(r.outcome)
  {
    var u := GetUser(service, token, up);
    match u.outcome
    case Failed(f) => Reply(Failed(f), u.sent)
    case Ok(user) =>
      match CheckVariable(variable)
      case Some(why) => Reply(Failed(Rejected(BAD_REQUEST, why)), u.sent)
      case None =>
        var m := GetGroupMembership(service, user, groupId, up);
        match m.outcome
        case Failed(f) => Reply(Failed(f), u.sent + m.sent)
        case Ok(membership) =>
          var vs := GetGroupVariables(service, membership, up);
          Reply(vs.outcome, u.sent + m.sent + vs.sent)
  }

  /** The POST that creates variable in group groupId. */
  function CreateRequestFor(service: Service.GitLabService, groupId: int, variable: Variable): HttpRequest
    requires variable.key.Some? && variable.value.Some?
  {
    Service.CreateVariableRequest(service, groupId, variable.key.value, variable.value.value, variable.variableType,
                                  variable.isProtected, variable.isMasked, variable.environmentScope)
  }

  /** The PUT that updates variable in group groupId. */
  function UpdateRequestFor(service: Service.GitLabService, groupId: int, variable: Variable): HttpRequest
    requires variable.key.Some? && variable.value.Some?
  {
    Service.UpdateVariableRequest(service, groupId, variable.key.value, variable.value.value, variable.variableType,
                                  variable.isProtected, variable.isMasked, variable.environmentScope)
  }

  /** The variable returned to the caller for a created or updated one; null is a server error. */
  function Written(c: ClientCall<Call<Option<GLVariable>>>, sent: seq<HttpRequest>, reason: Reason): (r: Reply<Variable>)
    requires StatusOf(reason) == INTERNAL_SERVER_ERROR
    ensures Classified(r.outcome)
    ensures r.sent == sent + c.requests
    ensures c.result == Returns(None) ==> r.outcome == Failed(Rejected(INTERNAL_SERVER_ERROR, reason))
    ensures c.result.Returns? && c.result.value.Some? ==> r.outcome == Ok(FromGLVariable(c.result.value.value))
    ensures c.result.Throws? ==> r.outcome == Failed(Crashed(c.result.error))
  {
    match c.result
    case Throws(e) => Reply(Failed(Crashed(e)), sent + c.requests)
    case Returns(None) => Reply(Failed(Rejected(INTERNAL_SERVER_ERROR, reason)), sent + c.requests)
    case Returns(Some(v)) => Reply(Ok(FromGLVariable(v)), sent + c.requests)
  }

  /** POST /groups/{groupId}/variables: the key must not exist yet. */
  function CreateGroupVariable(service: Service.GitLabService, token: JString, groupId: int, variable: Variable, up: Upstream)
    : (r: Reply<Variable>)
    ensures Classified(r.outcome)
  {
    CreatePrepared(Prepare(service, token, groupId, variable, up), service, groupId, variable, up)
  }

  /**
   * The rest of create once the variables are known: an earlier failure is
   * the answer; a key that exists is refused 400 without a write; otherwise
   * one POST, answering the created variable, or 500 when it came back null.
   */
  function CreatePrepared(p: Reply<seq<GLVariable>>, service: Service.GitLabService, groupId: int, variable: Variable, up: Upstream)
    : (r: Reply<Variable>)
    requires Classified(p.outcome)
    requires p.outcome.Ok? ==> variable.key.Some? && variable.value.Some?
    ensures Classified(r.outcome)
    ensures p.outcome.Failed? ==> r == Reply(Failed(p.outcome.failure), p.sent)
    ensures p.outcome.Ok? && HasKey(p.outcome.value, variable.key.value) ==>
              r == Reply(Failed(Rejected(BAD_REQUEST, AlreadyExists)), p.sent)
    ensures p.outcome.Ok? && !HasKey(p.outcome.value, variable.key.value) ==>
              && r.outcome == (if up.created.Returns? then Ok(FromGLVariable(up.created.value))
                               else Failed(Rejected(INTERNAL_SERVER_ERROR, CreateFailed)))
              && |r.sent| == |p.sent| + 1 && r.sent[..|p.sent|] == p.sent && r.sent[|p.sent|].verb == POST
              && r.sent == p.sent + [CreateRequestFor(service, groupId, variable)]
  {
    match p.outcome
    case Failed(f) => Reply(Failed(f), p.sent)
    case Ok(vs) =>
      if HasKey(vs, variable.key.value) then Reply(Failed(Rejected(BAD_REQUEST, AlreadyExists)), p.sent)
      else CreateWrite(p.sent, service, groupId, variable, up)
  }

  /** The POST of create after the requests so far: the created variable, or 500 when it came back null. */
  function CreateWrite(sent: seq<HttpRequest>, service: Service.GitLabService, groupId: int, variable: Variable, up: Upstream)
    : (r: Reply<Variable>)
    requires variable.key.Some? && variable.value.Some?
    ensures Classified(r.outcome)
    ensures r.outcome == (if up.created.Returns? then Ok(FromGLVariable(up.created.value))
                          else Failed(Rejected(INTERNAL_SERVER_ERROR, CreateFailed)))
    ensures |r.sent| == |sent| + 1 && r.sent[..|sent|] == sent && r.sent[|sent|].verb == POST
    ensures r.sent == sent + [CreateRequestFor(service, groupId, variable)]
  {
    Written(Service.CreateGroupVariable(service, groupId, variable.key.value, variable.value.value,
                                        variable.variableType, variable.isProtected, variable.isMasked,
                                        variable.environmentScope, up.created),
            sent, CreateFailed)
  }

  /** PUT /groups/{groupId}/variables: the key must exist. */
  function UpdateGroupVariable(service: Service.GitLabService, token: JString, groupId: int, variable: Variable, up: Upstream)
    : (r: Reply<Variable>)
    ensures Classified(r.outcome)
  {
    UpdatePrepared(Prepare(service, token, groupId, variable, up), service, groupId, variable, up)
  }

  /**
   * The rest of update once the variables are known: an earlier failure is
   * the answer; a key that does not exist is refused 400 without a write;
   * otherwise one PUT, answering the updated variable, or 500 for null.
   */
  function UpdatePrepared(p: Reply<seq<GLVariable>>, service: Service.GitLabService, groupId: int, variable: Variable, up: Upstream)
    : (r: Reply<Variable>)
    requires Classified(p.outcome)
    requires p.outcome.Ok? ==> variable.key.Some? && variable.value.Some?
    ensures Classified(r.outcome)
    ensures p.outcome.Failed? ==> r == Reply(Failed(p.outcome.failure), p.sent)
    ensures p.outcome.Ok? && !HasKey(p.outcome.value, variable.key.value) ==>
              r == Reply(Failed(Rejected(BAD_REQUEST, DoesNotExist)), p.sent)
    ensures p.outcome.Ok? && HasKey(p.outcome.value, variable.key.value) ==>
              && r.outcome == (if up.updated.Returns? then Ok(FromGLVariable(up.updated.value))
                               else Failed(Rejected(INTERNAL_SERVER_ERROR, UpdateFailed)))
              && |r.sent| == |p.sent| + 1 && r.sent[..|p.sent|] == p.sent && r.sent[|p.sent|].verb == PUT
              && r.sent == p.sent + [UpdateRequestFor(service, groupId, variable)]
  {
    match p.outcome
    case Failed(f) => Reply(Failed(f), p.sent)
    case Ok(vs) =>
      if !HasKey(vs, variable.key.value) then Reply(Failed(Rejected(BAD_REQUEST, DoesNotExist)), p.sent)
      else UpdateWrite(p.sent, service, groupId, variable, up)
  }

  /** The PUT of update after the requests so far: the updated variable, or 500 when it came back null. */
  function UpdateWrite(sent: seq<HttpRequest>, service: Service.GitLabService, groupId: int, variable: Variable, up: Upstream)
    : (r: Reply<Variable>)
    requires variable.key.Some? && variable.value.Some?
    ensures Classified(r.outcome)
    ensures r.outcome == (if up.updated.Returns? then Ok(FromGLVariable(up.updated.value))
                          else Failed(Rejected(INTERNAL_SERVER_ERROR, UpdateFailed)))
    ensures |r.sent| == |sent| + 1 && r.sent[..|sent|] == sent && r.sent[|sent|].verb == PUT
    ensures r.sent == sent + [UpdateRequestFor(service, groupId, variable)]
  {
    Written(Service.UpdateGroupVariable(service, groupId, variable.key.value, variable.value.value,
                                        variable.variableType, variable.isProtected, variable.isMasked,
                                        variable.environmentScope, up.updated),
            sent, UpdateFailed)
  }

  /** DELETE /groups/{groupId}/variables/{key}: the key is checked before any membership lookup, and must exist. */
  function DeleteGroupVariable(service: Service.GitLabService, token: JString, groupId: int, key: JString, up: Upstream)
    : (r: Reply<()>)
    ensures Classified(r.outcome)
  {
    var u := GetUser(service, token, up);
    match u.outcome
    case Failed(f) => Reply(Failed(f), u.sent)
    case Ok(user) =>
      if !HasText(key) then Reply(Failed(Rejected(BAD_REQUEST, MissingKey)), u.sent)
      else
        var m := GetGroupMembership(service, user, groupId, up);
        match m.outcome
        case Failed(f) => Reply(Failed(f), u.sent + m.sent)
        case Ok(membership) =>
          var vs := GetGroupVariables(service, membership, up);
          DeleteListed(Reply(vs.outcome, u.sent + m.sent + vs.sent), service, groupId, key.value, up)
  }

  /**
   * The rest of delete once the variables are known: an earlier failure is
   * the answer; a key that does not exist is refused 400 without a write;
   * otherwise one DELETE, answering nothing, or 500 when the call failed.
   */
  function DeleteListed(p: Reply<seq<GLVariable>>, service: Service.GitLabService, groupId: int, key: string, up: Upstream)
    : (r: Reply<()>)
    requires Classified(p.outcome)
    ensures Classified(r.outcome)
    ensures p.outcome.Failed? ==> r == Reply(Failed(p.outcome.failure), p.sent)
    ensures p.outcome.Ok? && !HasKey(p.outcome.value, key) ==> r == Reply(Failed(Rejected(BAD_REQUEST, DoesNotExist)), p.sent)
    ensures p.outcome.Ok? && HasKey(p.outcome.value, key) ==>
              && r.outcome == (if up.deleted.Returns? then Ok(()) else Failed(Rejected(INTERNAL_SERVER_ERROR, DeleteFailed)))
              && |r.sent| == |p.sent| + 1 && r.sent[..|p.sent|] == p.sent && r.sent[|p.sent|].verb == DELETE
              && r.sent == p.sent + [Service.DeleteVariableRequest(service, groupId, key)]
  {
    match p.outcome
    case Failed(f) => Reply(Failed(f), p.sent)
    case Ok(list) =>
      if !HasKey(list, key) then Reply(Failed(Rejected(BAD_REQUEST, DoesNotExist)), p.sent)
      else
        var c := Service.DeleteGroupVariable(service, groupId, key, up.deleted);
        if !c.result then Reply(Failed(Rejected(INTERNAL_SERVER_ERROR, DeleteFailed)), p.sent + c.requests)
        else Reply(Ok(()), p.sent + c.requests)
  }
}
