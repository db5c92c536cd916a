/**
 * GitLabClient: the GitLab calls the helper makes, the form body of variable
 * writes, and the override of makeReadListApiCall that follows the Link
 * header's rel="next" relation (web linking, RFC 8288) across pages.
 *
 * The pages an upstream list request yields are a PageChain: a finite chain
 * in which every page that carries a next link is followed by whatever
 * requesting that link yields.  LinkHeader parsing is not part of this
 * model; a page's next link is given with the page.
 */
module GitLabClient {
  import opened JavaLang
  import opened Http
  import opened RestClient
  import opened GitLabModel

  const HEADER_NAME_AUTHENTICATION: string := "PRIVATE-TOKEN"

  /** GitLabClientConfig: the REST client settings and the helper's own access token. */
  datatype GitLabClientConfig = GitLabClientConfig(rest: RestClientConfig, personalAccessToken: string)

  /**
   * A constructed GitLabClient.  Its authentication entity, assigned once by
   * the constructor, carries the configured service token.
   */
  datatype GitLabClient = GitLabClient(config: GitLabClientConfig) {

    /** The AbstractRestClient state after the constructor's prepareAuthenticationEntity. */
    function Base(): (c: RestClient)
      ensures c.config == config.rest
      ensures HEADER_NAME_AUTHENTICATION in c.authenticationEntity.headers
      ensures c.authenticationEntity.headers[HEADER_NAME_AUTHENTICATION] == config.personalAccessToken
    {
      PrepareAuthenticationEntity(config.rest, HEADER_NAME_AUTHENTICATION, config.personalAccessToken)
    }

    function AuthenticationEntity(): Entity {
      Base().authenticationEntity
    }
  }

  /** The pages one list request yields, in request order. */
  datatype PageChain<T> =
    | Failure(error: Exception)                          // requesting this page threw
    | Final(body: seq<T>)                               // a page without a rel="next" link
    | Linked(body: seq<T>, next: Uri, rest: PageChain<T>) // a page with rel="next"; rest is what requesting next yields

  /** The bodies of the pages that arrived, in request order. */
  function Bodies<T>(pages: PageChain<T>): seq<seq<T>> {
    match pages
    case Failure(_) => []
    case Final(b) => [b]
    case Linked(b, _, rest) => [b] + Bodies(rest)
  }

  /** The exception that ended the chain, if one did. */
  function Stop<T>(pages: PageChain<T>): Option<Exception> {
    match pages
    case Failure(e) => Some(e)
    case Final(_) => None
    case Linked(_, _, rest) => Stop(rest)
  }

  /** The next links, which the client follows in order. */
  function NextLinks<T>(pages: PageChain<T>): seq<Uri> {
    match pages
    case Failure(_) => []
    case Final(_) => []
    case Linked(_, next, rest) => [next] + NextLinks(rest)
  }

  /** The in-order concatenation of a sequence of page bodies. */
  function Flatten<T>(bodies: seq<seq<T>>): seq<T> {
    if bodies == [] then [] else bodies[0] + Flatten(bodies[1..])
  }

  lemma FlattenSingle<T>(b: seq<T>)
    ensures Flatten([b]) == b
  {
    assert [b][1..] == [];
    assert Flatten([b]) == b + Flatten([]);
  }

  /** One loop step: a linked page contributes its body, its next link and nothing else. */
  lemma LinkedStep<T>(client: GitLabClient, verb: HttpMethod, response: PageChain<T>)
    requires response.Linked?
    ensures Flatten(Bodies(response)) == response.body + Flatten(Bodies(response.rest))
    ensures FollowUpRequests(client, verb, NextLinks(response))
            == [FollowUpRequest(client, verb, response.next)] + FollowUpRequests(client, verb, NextLinks(response.rest))
    ensures Stop(response) == Stop(response.rest)
  {
    assert ([response.body] + Bodies(response.rest))[1..] == Bodies(response.rest);
    assert ([response.next] + NextLinks(response.rest))[1..] == NextLinks(response.rest);
  }

  function SumOfLengths<T>(bodies: seq<seq<T>>): nat {
    if bodies == [] then 0 else |bodies[0]| + SumOfLengths(bodies[1..])
  }

  // ---------------------------------------------------------------------------
  // makeReadListApiCall

  /** The first request's URL: per_page appended with & or ?, depending on whether apiCall has a query. */
  function ListUrl(client: GitLabClient, apiCall: string): string {
    GetApiUrl(client.config.rest, apiCall + (if '?' in apiCall then "&" else "?") + "per_page={perPage}")
  }

  /** The caller's uri variables after makeReadListApiCall has put perPage into them. */
  function ListUriVariables(client: GitLabClient, uriVariables: map<string, string>): map<string, string> {
    uriVariables["perPage" := PerPageAsString(client.config.rest)]
  }

  function FirstListRequest(client: GitLabClient, apiCall: string, verb: HttpMethod,
                            uriVariables: map<string, string>): HttpRequest
  {
    HttpRequest(verb, Template(ListUrl(client, apiCall), ListUriVariables(client, uriVariables)),
                client.AuthenticationEntity())
  }

  /** A follow-up request: the next URI as it is, no uri variables, the same authentication entity. */
  function FollowUpRequest(client: GitLabClient, verb: HttpMethod, next: Uri): HttpRequest {
    HttpRequest(verb, Resource(next), client.AuthenticationEntity())
  }

  function FollowUpRequests(client: GitLabClient, verb: HttpMethod, links: seq<Uri>): (rs: seq<HttpRequest>)
    ensures |rs| == |links|
    ensures forall i :: 0 <= i < |links| ==> rs[i] == FollowUpRequest(client, verb, links[i])
  {
    if links == [] then [] else [FollowUpRequest(client, verb, links[0])] + FollowUpRequests(client, verb, links[1..])
  }

  /**
   * What the paginated makeReadListApiCall does: it sends the first request
   * and one request per next link; it answers the concatenated bodies when
   * every request succeeded, null (and the logging decision) when a request
   * threw a RestClientException, and lets any other exception through.
   */
  function ReadList<T>(client: GitLabClient, apiCall: string, verb: HttpMethod,
                       uriVariables: map<string, string>, ignoreStatus: Option<seq<int>>,
                       pages: PageChain<T>): ClientCall<Call<Option<seq<T>>>>
  {
    Ended([FirstListRequest(client, apiCall, verb, uriVariables)] + FollowUpRequests(client, verb, NextLinks(pages)),
          Flatten(Bodies(pages)), Stop(pages), ignoreStatus)
  }

  /** How a list read ends: the entities read, or the catch block's answer to the exception that stopped it. */
  function Ended<T>(requests: seq<HttpRequest>, entities: seq<T>, stop: Option<Exception>, ignoreStatus: Option<seq<int>>)
    : ClientCall<Call<Option<seq<T>>>>
  {
    match stop
    case None => ClientCall(requests, Returns(Some(entities)), false)
    case Some(e) =>
      var (result, logged) := CatchRestClientException(Throws(e), ignoreStatus);
      ClientCall(requests, result, logged)
  }

  /**
   * The rest of the do-while loop from its head, where the requests so far
   * have been sent, the entities so far collected, and response is the page
   * just read (its body among the entities).
   */
  function Resume<T>(client: GitLabClient, verb: HttpMethod, ignoreStatus: Option<seq<int>>,
                     requests: seq<HttpRequest>, entities: seq<T>, response: PageChain<T>): ClientCall<Call<Option<seq<T>>>>
    decreases response
  {
    match response
    case Failure(e) => Ended(requests, entities, Some(e), ignoreStatus)
    case Final(_) => Ended(requests, entities, None, ignoreStatus)
    case Linked(_, next, rest) =>
      var sent := requests + [FollowUpRequest(client, verb, next)];
      match rest
      case Failure(e) => Ended(sent, entities, Some(e), ignoreStatus)
      case Final(b) => Resume(client, verb, ignoreStatus, sent, entities + b, rest)
      case Linked(b, _, _) => Resume(client, verb, ignoreStatus, sent, entities + b, rest)
  }

  /** Resuming the loop at a page reads what is left of the chain from that page on. */
  lemma {:induction false} ResumeReadsRest<T>(client: GitLabClient, verb: HttpMethod, ignoreStatus: Option<seq<int>>,
                                              requests: seq<HttpRequest>, before: seq<T>, response: PageChain<T>)
    requires !response.Failure?
    ensures Resume(client, verb, ignoreStatus, requests, before + response.body, response)
            == Ended(requests + FollowUpRequests(client, verb, NextLinks(response)),
                     before + Flatten(Bodies(response)), Stop(response), ignoreStatus)
    decreases response
  {
    match response
    case Final(b) =>
      FlattenSingle(b);
      assert requests + FollowUpRequests(client, verb, NextLinks(response)) == requests;
    case Linked(b, next, rest) =>
      LinkedStep(client, verb, response);
      var sent := requests + [FollowUpRequest(client, verb, next)];
      AppendAssociates(requests, [FollowUpRequest(client, verb, next)], FollowUpRequests(client, verb, NextLinks(rest)));
      AppendAssociates(before, b, Flatten(Bodies(rest)));
      if rest.Failure? {
        assert sent + FollowUpRequests(client, verb, NextLinks(rest)) == sent;
      } else {
        AppendAssociates(before, b, rest.body);
        ResumeReadsRest(client, verb, ignoreStatus, sent, before + b, rest);
      }
  }

  /** GitLabClient.makeReadListApiCall, with the do-while loop over the next links. */
  method MakeReadListApiCall<T>(client: GitLabClient, apiCall: string, verb: HttpMethod,
                                uriVariables: map<string, string>, ignoreStatus: Option<seq<int>>,
                                pages: PageChain<T>)
    returns (call: ClientCall<Call<Option<seq<T>>>>, uriVariablesAfter: map<string, string>)
    ensures call == ReadList(client, apiCall, verb, uriVariables, ignoreStatus, pages)
    ensures uriVariablesAfter == ListUriVariables(client, uriVariables)
  {
    var url := GetApiUrl(client.config.rest, apiCall + (if '?' in apiCall then "&" else "?") + "per_page={perPage}");
    uriVariablesAfter := uriVariables["perPage" := PerPageAsString(client.config.rest)];
    var requests := [HttpRequest(verb, Template(url, uriVariablesAfter), client.AuthenticationEntity())];
    var response := pages;
    if response.Failure? {
      call := Failed(requests, response.error, ignoreStatus);
      return;
    }
    var entities := response.body;
    assert entities == [] + response.body;
    ResumeReadsRest(client, verb, ignoreStatus, requests, [], response);
    assert requests == [FirstListRequest(client, apiCall, verb, uriVariables)];
    assert [] + Flatten(Bodies(pages)) == Flatten(Bodies(pages));
    while response.Linked?
      invariant !response.Failure?
      invariant Resume(client, verb, ignoreStatus, requests, entities, response)
                == ReadList(client, apiCall, verb, uriVariables, ignoreStatus, pages)
      decreases response
    {
      var nextResourceUri := response.next;
      requests := requests + [FollowUpRequest(client, verb, nextResourceUri)];
      response := response.rest;
      if response.Failure? {
        call := Failed(requests, response.error, ignoreStatus);
        return;
      }
      entities := entities + response.body;
    }
    call := ClientCall(requests, Returns(Some(entities)), false);
  }

  /** The catch block: null and the logging decision for a RestClientException, anything else rethrown. */
  method Failed<T>(requests: seq<HttpRequest>, e: Exception, ignoreStatus: Option<seq<int>>)
    returns (call: ClientCall<Call<Option<T>>>)
    ensures (call.result, call.logged) == CatchRestClientException(Throws(e), ignoreStatus)
    ensures call.requests == requests
  {
    if IsRestClientException(e) {
      var logged := LogException(e, ignoreStatus);
      call := ClientCall(requests, Returns(None), logged);
    } else {
      call := ClientCall(requests, Throws(e), false);
    }
  }

  // ---------------------------------------------------------------------------
  // Properties of the traversal

  /** One request per page that was asked for: the first, then one per next link. */
  lemma {:induction false} RequestsMatchPages<T>(pages: PageChain<T>)
    ensures Stop(pages).None? ==> |Bodies(pages)| == |NextLinks(pages)| + 1
    ensures Stop(pages).Some? ==> |Bodies(pages)| == |NextLinks(pages)|
  {
    match pages
    case Failure(_) =>
    case Final(_) =>
    case Linked(_, _, rest) => RequestsMatchPages(rest);
  }

  lemma {:induction false} FlattenLength<T>(bodies: seq<seq<T>>)
    ensures |Flatten(bodies)| == SumOfLengths(bodies)
  {
    if bodies != [] {
      FlattenLength(bodies[1..]);
    }
  }

  /** N full pages of P items followed by a last page of r items give N * P + r items. */
  lemma {:induction false} FullPagesThenPartial<T>(bodies: seq<seq<T>>, perPage: nat, r: nat)
    requires |bodies| > 0
    requires forall i :: 0 <= i < |bodies| - 1 ==> |bodies[i]| == perPage
    requires |bodies[|bodies| - 1]| == r
    ensures |Flatten(bodies)| == (|bodies| - 1) * perPage + r
  {
    FlattenLength(bodies);
    if |bodies| > 1 {
      FullPagesThenPartial(bodies[1..], perPage, r);
      FlattenLength(bodies[1..]);
      assert |bodies[0]| == perPage;
    }
  }

  /**
   * The list read answers all pages in request order when no request
   * failed, and never a prefix: any failure gives null or the exception.
   */
  lemma ReadListResult<T>(client: GitLabClient, apiCall: string, verb: HttpMethod,
                          uriVariables: map<string, string>, ignoreStatus: Option<seq<int>>, pages: PageChain<T>)
    ensures var call := ReadList(client, apiCall, verb, uriVariables, ignoreStatus, pages);
            && (call.result.Returns? && call.result.value.Some? <==> Stop(pages).None?)
            && (Stop(pages).None? ==> call.result == Returns(Some(Flatten(Bodies(pages)))))
            && (Stop(pages).Some? && IsRestClientException(Stop(pages).value) ==> call.result == Returns(None))
            && (Stop(pages).Some? && !IsRestClientException(Stop(pages).value) ==> call.result == Throws(Stop(pages).value))
  {
  }

  /** A first page without a next link is answered as it is, after exactly one request. */
  lemma SinglePage<T>(client: GitLabClient, apiCall: string, verb: HttpMethod,
                      uriVariables: map<string, string>, ignoreStatus: Option<seq<int>>, body: seq<T>)
    ensures var call := ReadList(client, apiCall, verb, uriVariables, ignoreStatus, Final(body));
            call.requests == [FirstListRequest(client, apiCall, verb, uriVariables)] && call.result == Returns(Some(body))
  {
    FlattenSingle(body);
  }

  /**
   * The requests: the first goes to getApiUrl(apiCall + per_page) with perPage
   * added to the uri variables; each next one goes to the next link verbatim,
   * without uri variables; all carry the service's authentication entity.
   */
  lemma ReadListRequests<T>(client: GitLabClient, apiCall: string, verb: HttpMethod,
                            uriVariables: map<string, string>, ignoreStatus: Option<seq<int>>, pages: PageChain<T>)
    ensures var call := ReadList(client, apiCall, verb, uriVariables, ignoreStatus, pages);
            && |call.requests| == |NextLinks(pages)| + 1
            && call.requests[0].target == Template(ListUrl(client, apiCall), uriVariables["perPage" := PerPageAsString(client.config.rest)])
            && (forall i :: 0 <= i < |NextLinks(pages)| ==> call.requests[i + 1].target == Resource(NextLinks(pages)[i]))
            && (forall i :: 0 <= i < |call.requests| ==>
                  call.requests[i].verb == verb &&
                  call.requests[i].entity == client.AuthenticationEntity() &&
                  call.requests[i].entity.headers[HEADER_NAME_AUTHENTICATION] == client.config.personalAccessToken)
  {
    var call := ReadList(client, apiCall, verb, uriVariables, ignoreStatus, pages);
    assert forall i :: 0 <= i < |NextLinks(pages)| ==> call.requests[i + 1] == FollowUpRequest(client, verb, NextLinks(pages)[i]);
  }

  /** per_page joins an existing query with & and starts a new one with ?. */
  lemma ListUrlQuery(client: GitLabClient, apiCall: string)
    ensures '?' in apiCall ==> ListUrl(client, apiCall) == GetApiUrl(client.config.rest, apiCall + "&per_page={perPage}")
    ensures '?' !in apiCall ==> ListUrl(client, apiCall) == GetApiUrl(client.config.rest, apiCall + "?per_page={perPage}")
  {
  }

  // ---------------------------------------------------------------------------
  // createSettingsMap

  /** MultiValueMap.add of each pair in turn. */
  function AddAll(m: MultiValueMap, ps: seq<(string, string)>): MultiValueMap
    decreases |ps|
  {
    if ps == [] then m else AddAll(Add(m, ps[0].0, ps[0].1), ps[1..])
  }

  /** The values paired with name k, in order. */
  function ValuesFor(ps: seq<(string, string)>, k: string): seq<string>
    decreases |ps|
  {
    if ps == [] then [] else (if ps[0].0 == k then [ps[0].1] else []) + ValuesFor(ps[1..], k)
  }

  /** "key" (when not null) and "value", before any setting. */
  function InitialForm(key: JString, value: string): MultiValueMap {
    Add(if key.Some? then Add([], "key", key.value) else [], "value", value)
  }

  /** The body createSettingsMap builds. */
  function SettingsMap(key: JString, value: string, settings: seq<string>): MultiValueMap
    requires |settings| % 2 == 0
  {
    AddAll(InitialForm(key, value), PairsOf(settings))
  }

  /**
   * createSettingsMap.  Its only callers have already rejected an odd
   * number of settings, which is what its loop relies on.
   */
  method CreateSettingsMap(key: JString, value: string, settings: seq<string>) returns (body: MultiValueMap)
    requires |settings| % 2 == 0
    ensures body == SettingsMap(key, value, settings)
  {
    body := [];
    if key.Some? {
      body := Add(body, "key", key.value);
    }
    body := Add(body, "value", value);
    AddSettingsPairs(body, settings);
    var i := 0;
    while i < |settings|
      invariant 0 <= i <= |settings| && (|settings| - i) % 2 == 0
      invariant AddSettings(body, settings[i..]) == SettingsMap(key, value, settings)
      decreases |settings| - i
    {
      EvenStep(i, |settings|);
      assert settings[i..][2..] == settings[i + 2..];
      body := Add(body, settings[i], settings[i + 1]);
      i := i + 2;
    }
  }

  /**
   * The loop of createSettingsMap, read two settings at a time.  It is only
   * used for even lists: on an odd one the Java loop would index past the
   * end, which this function does not model.
   */
  function AddSettings(m: MultiValueMap, settings: seq<string>): MultiValueMap
    decreases |settings|
  {
    if |settings| < 2 then m else AddSettings(Add(m, settings[0], settings[1]), settings[2..])
  }

  lemma {:induction false} AddSettingsPairs(m: MultiValueMap, settings: seq<string>)
    requires |settings| % 2 == 0
    ensures AddSettings(m, settings) == AddAll(m, PairsOf(settings))
    decreases |settings|
  {
    if settings != [] {
      AddAllStep(m, settings);
      AddSettingsPairs(Add(m, settings[0], settings[1]), settings[2..]);
    }
  }

  /** Adding the first two settings, then the rest, is adding them all. */
  lemma AddAllStep(m: MultiValueMap, settings: seq<string>)
    requires |settings| % 2 == 0 && |settings| >= 2
    ensures AddAll(m, PairsOf(settings)) == AddAll(Add(m, settings[0], settings[1]), PairsOf(settings[2..]))
  {
    assert PairsOf(settings)[1..] == PairsOf(settings[2..]);
  }

  lemma {:induction false} AddAllGet(m: MultiValueMap, ps: seq<(string, string)>, k: string)
    ensures Get(AddAll(m, ps), k) == Get(m, k) + ValuesFor(ps, k)
    decreases |ps|
  {
    if ps != [] {
      AddAllGet(Add(m, ps[0].0, ps[0].1), ps[1..], k);
    }
  }

  /**
   * What the form body holds under each name: the key under "key" only when
   * it is not null, the value under "value" always, then every setting's
   * value under its name, in the order given.
   */
  lemma SettingsMapContents(key: JString, value: string, settings: seq<string>, name: string)
    requires |settings| % 2 == 0
    ensures Get(SettingsMap(key, value, settings), name) ==
              (if name == "key" && key.Some? then [key.value] else []) +
              (if name == "value" then [value] else []) +
              ValuesFor(PairsOf(settings), name)
    ensures key.Some? ==> |Keys(SettingsMap(key, value, settings))| >= 2 &&
                          Keys(SettingsMap(key, value, settings))[..2] == ["key", "value"]
    ensures key.None? ==> |Keys(SettingsMap(key, value, settings))| >= 1 &&
                          Keys(SettingsMap(key, value, settings))[..1] == ["value"]
  {
    var m := InitialForm(key, value);
    InitialFormContents(key, value, name);
    AddAllGet(m, PairsOf(settings), name);
    AddAllKeysPrefix(m, PairsOf(settings));
    var ks := Keys(AddAll(m, PairsOf(settings)));
    if key.Some? {
      assert ks[..2] == ks[..|Keys(m)|];
    } else {
      assert ks[..1] == ks[..|Keys(m)|];
    }
  }

  /** The form before any setting: "key" holding the key when it is not null, then "value" holding the value. */
  lemma InitialFormContents(key: JString, value: string, name: string)
    ensures Get(InitialForm(key, value), name) ==
              (if name == "key" && key.Some? then [key.value] else []) + (if name == "value" then [value] else [])
    ensures Keys(InitialForm(key, value)) == if key.Some? then ["key", "value"] else ["value"]
  {
    if key.Some? {
      assert Keys(Add([], "key", key.value)) == ["key"];
    }
  }

  lemma {:induction false} AddAllKeysPrefix(m: MultiValueMap, ps: seq<(string, string)>)
    ensures |Keys(AddAll(m, ps))| >= |Keys(m)|
    ensures Keys(AddAll(m, ps))[..|Keys(m)|] == Keys(m)
    decreases |ps|
  {
    if ps != [] {
      var m' := Add(m, ps[0].0, ps[0].1);
      AddAllKeysPrefix(m', ps[1..]);
      var ks := Keys(AddAll(m', ps[1..]));
      assert ks[..|Keys(m)|] == ks[..|Keys(m')|][..|Keys(m)|];
    }
  }

  lemma {:induction false} KeysAppend(a: MultiValueMap, b: MultiValueMap)
    ensures Keys(a + b) == Keys(a) + Keys(b)
  {
    if a != [] {
      assert (a + b)[0] == a[0];
      assert (a + b)[1..] == a[1..] + b;
      KeysAppend(a[1..], b);
    } else {
      assert a + b == b;
    }
  }

  /** No two pairs share a name. */
  predicate DistinctNames(ps: seq<(string, string)>) {
    forall p, q :: 0 <= p < q < |ps| ==> ps[p].0 != ps[q].0
  }

  /** Every name of the pairs is distinct from every other and from the names already in m. */
  predicate FreshNames(m: MultiValueMap, ps: seq<(string, string)>) {
    && (forall p :: 0 <= p < |ps| ==> ps[p].0 !in Keys(m))
    && DistinctNames(ps)
  }

  function Singletons(ps: seq<(string, string)>): (r: MultiValueMap)
    ensures |r| == |ps|
    ensures forall p :: 0 <= p < |ps| ==> r[p] == (ps[p].0, [ps[p].1])
  {
    if ps == [] then [] else [(ps[0].0, [ps[0].1])] + Singletons(ps[1..])
  }

  /** Adding pairs under fresh names appends one single-valued entry per pair, in order. */
  lemma {:induction false} AddAllFresh(m: MultiValueMap, ps: seq<(string, string)>)
    requires FreshNames(m, ps)
    ensures AddAll(m, ps) == m + Singletons(ps)
    decreases |ps|
  {
    if ps == [] {
      assert m + [] == m;
    } else {
      var e := (ps[0].0, [ps[0].1]);
      AddAllFreshStep(m, ps);
      AddAllFresh(m + [e], ps[1..]);
      AppendAssociates(m, [e], Singletons(ps[1..]));
    }
  }

  lemma AppendAssociates<X>(a: seq<X>, b: seq<X>, c: seq<X>)
    ensures (a + b) + c == a + (b + c)
  {
  }

  lemma AddAllFreshStep(m: MultiValueMap, ps: seq<(string, string)>)
    requires ps != [] && FreshNames(m, ps)
    ensures AddAll(m, ps) == AddAll(m + [(ps[0].0, [ps[0].1])], ps[1..])
    ensures FreshNames(m + [(ps[0].0, [ps[0].1])], ps[1..])
    ensures Singletons(ps) == [(ps[0].0, [ps[0].1])] + Singletons(ps[1..])
  {
    assert ps[0].0 !in Keys(m);
    FreshNamesTail(m, ps);
  }

  lemma FreshNamesTail(m: MultiValueMap, ps: seq<(string, string)>)
    requires ps != [] && FreshNames(m, ps)
    ensures FreshNames(m + [(ps[0].0, [ps[0].1])], ps[1..])
  {
    var m' := m + [(ps[0].0, [ps[0].1])];
    KeysAppend(m, [(ps[0].0, [ps[0].1])]);
    assert Keys([(ps[0].0, [ps[0].1])]) == [ps[0].0];
    assert Keys(m') == Keys(m) + [ps[0].0];
    forall p | 0 <= p < |ps[1..]| ensures ps[1..][p].0 !in Keys(m') {
      assert ps[1..][p] == ps[p + 1];
      assert ps[p + 1].0 != ps[0].0;
    }
  }

  /** The setting names are distinct and neither "key" nor "value". */
  predicate DistinctSettingNames(settings: seq<string>)
    requires |settings| % 2 == 0
  {
    var ps := PairsOf(settings);
    && (forall p :: 0 <= p < |ps| ==> ps[p].0 != "key" && ps[p].0 != "value")
    && DistinctNames(ps)
  }

  /**
   * With distinct setting names, the form body is exactly one entry per
   * parameter: "key" (when not null), "value", then each setting, each
   * holding the one value given for it.
   */
  lemma SettingsMapSingletons(key: JString, value: string, settings: seq<string>)
    requires |settings| % 2 == 0 && DistinctSettingNames(settings)
    ensures SettingsMap(key, value, settings) ==
              (if key.Some? then [("key", [key.value])] else []) + [("value", [value])] + Singletons(PairsOf(settings))
  {
    var m := InitialForm(key, value);
    assert m == (if key.Some? then [("key", [key.value])] else []) + [("value", [value])];
    assert Keys(m) == if key.Some? then ["key", "value"] else ["value"];
    AddAllFresh(m, PairsOf(settings));
  }

  // ---------------------------------------------------------------------------
  // The GitLab calls

  /** getUser: a blank token throws before any request; otherwise GET /user with the caller's token. */
  function GetUser(client: GitLabClient, personalAccessToken: JString, reply: Call<GLUser>): ClientCall<Call<Option<GLUser>>> {
    if !HasText(personalAccessToken) then ClientCall([], Throws(IllegalState), false)
    else
      var entity := CreateAuthenticationEntity(HEADER_NAME_AUTHENTICATION, personalAccessToken.value);
      var request := HttpRequest(GET, Template(GetApiUrl(client.config.rest, "/user"), VariablesMap([])), entity);
      var (result, logged) := CatchRestClientException(reply, Some([]));
      ClientCall([request], result, logged)
  }

  /** getGroupMemberships: the paginated list of the user's namespace memberships. */
  function GetGroupMemberships(client: GitLabClient, userId: int, pages: PageChain<GLMembership>)
    : ClientCall<Call<Option<seq<GLMembership>>>>
  {
    ReadList(client, "/users/{userId}/memberships?type=Namespace", GET, IdUriVariables("userId", userId), Some([]), pages)
  }


  /** getGroupVariables: the paginated list of a group's variables. */
  function GetGroupVariables(client: GitLabClient, groupId: int, pages: PageChain<GLVariable>)
    : ClientCall<Call<Option<seq<GLVariable>>>>
  {
    ReadList(client, "/groups/{groupId}/variables", GET, IdUriVariables("groupId", groupId), Some([]), pages)
  }

  /** createVariablesMap(name, Long.toString(id)): the uri variables of a user's or a group's URL. */
  function IdUriVariables(name: string, id: int): (m: map<string, string>)
    ensures m == map[name := IntToString(id)]
  {
    OneVariable(name, IntToString(id));
    VariablesMap([name, IntToString(id)])
  }

  /** createVariablesMap("groupId", groupId, "key", key): the uri variables of a key's URL. */
  function KeyUriVariables(groupId: int, key: string): (m: map<string, string>)
    ensures m == map["groupId" := IntToString(groupId), "key" := key]
  {
    TwoVariables("groupId", IntToString(groupId), "key", key);
    VariablesMap(["groupId", IntToString(groupId), "key", key])
  }

  /** The target of a group's variables: /groups/{groupId}/variables with the group's decimal id. */
  function GroupVariablesTarget(client: GitLabClient, groupId: int): Target {
    Template(GetApiUrl(client.config.rest, "/groups/{groupId}/variables"), map["groupId" := IntToString(groupId)])
  }

  /** The target of one variable: /groups/{groupId}/variables/{key} with the group's decimal id and the key. */
  function VariableTarget(client: GitLabClient, groupId: int, key: string): Target {
    Template(GetApiUrl(client.config.rest, "/groups/{groupId}/variables/{key}"),
             map["groupId" := IntToString(groupId), "key" := key])
  }

  /** Targets of different groups or keys differ. */
  lemma TargetsDistinguish(client: GitLabClient, groupId: int, key: string, otherGroup: int, otherKey: string)
    ensures GroupVariablesTarget(client, groupId) == GroupVariablesTarget(client, otherGroup) <==> groupId == otherGroup
    ensures VariableTarget(client, groupId, key) == VariableTarget(client, otherGroup, otherKey) <==>
              groupId == otherGroup && key == otherKey
    ensures GroupVariablesTarget(client, groupId) != VariableTarget(client, otherGroup, otherKey)
  {
    IntToStringInjective(groupId, otherGroup);
    var a := GroupVariablesTarget(client, groupId).uriVariables;
    var b := GroupVariablesTarget(client, otherGroup).uriVariables;
    assert a == b ==> a["groupId"] == b["groupId"];
    var c := VariableTarget(client, groupId, key).uriVariables;
    var d := VariableTarget(client, otherGroup, otherKey).uriVariables;
    assert c == d ==> c["groupId"] == d["groupId"] && c["key"] == d["key"];
    assert "key" !in a && "key" in d;
  }

  /** The headers of a variable write: a form content type and the service token. */
  function FormHeaders(client: GitLabClient): map<string, string> {
    map[CONTENT_TYPE := APPLICATION_FORM_URLENCODED]
      [HEADER_NAME_AUTHENTICATION := client.AuthenticationEntity().headers[HEADER_NAME_AUTHENTICATION]]
  }

  /** createGroupVariable: odd settings throw before any request; otherwise one form POST. */
  function CreateGroupVariable(client: GitLabClient, groupId: int, key: string, value: string,
                               settings: seq<string>, reply: Call<GLVariable>): ClientCall<Call<Option<GLVariable>>>
  {
    if |settings| % 2 != 0 then ClientCall([], Throws(IllegalState), false)
    else CreateExchange(client, groupId, key, value, settings, reply)
  }

  /** The POST of createGroupVariable once the settings have passed the parity check. */
  function CreateExchange(client: GitLabClient, groupId: int, key: string, value: string,
                          settings: seq<string>, reply: Call<GLVariable>): ClientCall<Call<Option<GLVariable>>>
    requires |settings| % 2 == 0
  {
    var entity := Entity(FormHeaders(client), Some(SettingsMap(Some(key), value, settings)));
    var call := MakeWriteApiCallWithBody(client.Base(), "/groups/{groupId}/variables", POST, entity,
                                         IdUriVariables("groupId", groupId), Some([]), reply);
    ClientCall(call.requests, Returns(call.result), call.logged)
  }

  /** updateGroupVariable: odd settings throw; otherwise one form PUT to the key's URL, without "key" in the body. */
  function UpdateGroupVariable(client: GitLabClient, groupId: int, key: string, value: string,
                               settings: seq<string>, reply: Call<GLVariable>): ClientCall<Call<Option<GLVariable>>>
  {
    if |settings| % 2 != 0 then ClientCall([], Throws(IllegalState), false)
    else UpdateExchange(client, groupId, key, value, settings, reply)
  }

  /** The PUT of updateGroupVariable once the settings have passed the parity check. */
  function UpdateExchange(client: GitLabClient, groupId: int, key: string, value: string,
                          settings: seq<string>, reply: Call<GLVariable>): ClientCall<Call<Option<GLVariable>>>
    requires |settings| % 2 == 0
  {
    var entity := Entity(FormHeaders(client), Some(SettingsMap(None, value, settings)));
    var call := MakeWriteApiCallWithBody(client.Base(), "/groups/{groupId}/variables/{key}", PUT, entity,
                                         KeyUriVariables(groupId, key), Some([]), reply);
    ClientCall(call.requests, Returns(call.result), call.logged)
  }

  /** deleteGroupVariable: one DELETE with the service's authentication entity; true iff it did not throw. */
  function DeleteGroupVariable(client: GitLabClient, groupId: int, key: string, reply: Call<()>): (r: ClientCall<bool>)
    ensures r.requests == [HttpRequest(DELETE, Template(GetApiUrl(client.config.rest, "/groups/{groupId}/variables/{key}"),
                                                        KeyUriVariables(groupId, key)),
                                       client.AuthenticationEntity())]
    ensures r.result <==> reply.Returns?
  {
    MakeWriteApiCall(client.Base(), "/groups/{groupId}/variables/{key}", DELETE,
                     KeyUriVariables(groupId, key), Some([]), reply)
  }

  /**
   * A blank token throws IllegalStateException without sending anything, so
   * it is never answered with null; any other token sends exactly GET /user.
   */
  lemma BlankTokenThrows(client: GitLabClient, personalAccessToken: JString, reply: Call<GLUser>)
    ensures !HasText(personalAccessToken) ==> GetUser(client, personalAccessToken, reply) == ClientCall([], Throws(IllegalState), false)
    ensures HasText(personalAccessToken) ==>
              var rs := GetUser(client, personalAccessToken, reply).requests;
              |rs| == 1 && rs[0].verb == GET && rs[0].target.url == GetApiUrl(client.config.rest, "/user")
    ensures HasText(personalAccessToken) && reply.Throws? && IsRestClientException(reply.error) ==>
              GetUser(client, personalAccessToken, reply).result == Returns(None)
  {
  }

  /** getUser authenticates with the caller's token; every other call uses the configured service token. */
  lemma TokensUsed(client: GitLabClient, personalAccessToken: JString, reply: Call<GLUser>,
                   groupId: int, key: string, value: string, settings: seq<string>, created: Call<GLVariable>,
                   deleted: Call<()>)
    ensures HasText(personalAccessToken) ==>
              GetUser(client, personalAccessToken, reply).requests[0].entity.headers[HEADER_NAME_AUTHENTICATION]
              == personalAccessToken.value
    ensures |settings| % 2 == 0 ==>
              && CreateGroupVariable(client, groupId, key, value, settings, created).requests[0].entity.headers[HEADER_NAME_AUTHENTICATION]
                 == client.config.personalAccessToken
              && UpdateGroupVariable(client, groupId, key, value, settings, created).requests[0].entity.headers[HEADER_NAME_AUTHENTICATION]
                 == client.config.personalAccessToken
    ensures DeleteGroupVariable(client, groupId, key, deleted).requests[0].entity.headers[HEADER_NAME_AUTHENTICATION]
            == client.config.personalAccessToken
  {
  }

  /** Create and update throw IllegalStateException exactly when the settings have odd length. */
  lemma ParityCheck(client: GitLabClient, groupId: int, key: string, value: string, settings: seq<string>,
                    reply: Call<GLVariable>)
    ensures CreateGroupVariable(client, groupId, key, value, settings, reply).result.Throws? <==> |settings| % 2 != 0
    ensures UpdateGroupVariable(client, groupId, key, value, settings, reply).result.Throws? <==> |settings| % 2 != 0
    ensures |settings| % 2 != 0 ==>
              CreateGroupVariable(client, groupId, key, value, settings, reply).requests == [] &&
              UpdateGroupVariable(client, groupId, key, value, settings, reply).requests == []
  {
  }

  /** The uri variables of a key's URL. */
  lemma TwoVariables(a: string, b: string, c: string, d: string)
    ensures VariablesMap([a, b, c, d]) == map[a := b][c := d]
  {
    var vs := [a, b, c, d];
    assert PairsOf(vs) == [(a, b), (c, d)];
    assert [(a, b), (c, d)][1..] == [(c, d)];
    assert [(c, d)][1..] == [];
    assert PutAll(map[], [(a, b), (c, d)]) == PutAll(map[a := b], [(c, d)]);
    assert PutAll(map[a := b], [(c, d)]) == PutAll(map[a := b][c := d], []);
  }

  /** The uri variables of a group's URL. */
  lemma OneVariable(a: string, b: string)
    ensures VariablesMap([a, b]) == map[a := b]
  {
    assert PairsOf([a, b]) == [(a, b)];
    assert [(a, b)][1..] == [];
    assert PutAll(map[], [(a, b)]) == PutAll(map[a := b], []);
  }

  /** Create sends POST to the group's variables URL, with the key first in the body, then the value. */
  lemma CreateBody(client: GitLabClient, groupId: int, key: string, value: string, settings: seq<string>,
                   reply: Call<GLVariable>)
    requires |settings| % 2 == 0
    ensures var r := CreateGroupVariable(client, groupId, key, value, settings, reply).requests[0];
            && r.verb == POST && r.entity.form.Some?
            && |Keys(r.entity.form.value)| >= 2 && Keys(r.entity.form.value)[..2] == ["key", "value"]
            && |Get(r.entity.form.value, "key")| >= 1 && Get(r.entity.form.value, "key")[0] == key
            && |Get(r.entity.form.value, "value")| >= 1 && Get(r.entity.form.value, "value")[0] == value
            && r.target == Template(GetApiUrl(client.config.rest, "/groups/{groupId}/variables"),
                                    map["groupId" := IntToString(groupId)])
  {
    SettingsMapContents(Some(key), value, settings, "key");
    SettingsMapContents(Some(key), value, settings, "value");
  }

  /** Update sends PUT to the key's URL with a body that does not start with the key. */
  lemma UpdateRequest(client: GitLabClient, groupId: int, key: string, value: string, settings: seq<string>,
                      reply: Call<GLVariable>)
    requires |settings| % 2 == 0
    ensures var r := UpdateGroupVariable(client, groupId, key, value, settings, reply).requests[0];
            && r.verb == PUT && r.entity.form.Some?
            && |Keys(r.entity.form.value)| >= 1 && Keys(r.entity.form.value)[0] == "value"
            && |Get(r.entity.form.value, "value")| >= 1 && Get(r.entity.form.value, "value")[0] == value
            && r.target == Template(GetApiUrl(client.config.rest, "/groups/{groupId}/variables/{key}"),
                                    map["groupId" := IntToString(groupId), "key" := key])
  {
    SettingsMapContents(None, value, settings, "value");
  }

  /** Delete sends DELETE to the key's URL with the service token, and succeeds iff the exchange did not throw. */
  lemma DeleteRequest(client: GitLabClient, groupId: int, key: string, reply: Call<()>)
    ensures var r := DeleteGroupVariable(client, groupId, key, reply);
            && |r.requests| == 1 && r.requests[0].verb == DELETE
            && r.requests[0].target == Template(GetApiUrl(client.config.rest, "/groups/{groupId}/variables/{key}"),
                                                map["groupId" := IntToString(groupId), "key" := key])
            && r.requests[0].entity.headers[HEADER_NAME_AUTHENTICATION] == client.config.personalAccessToken
            && (r.result <==> reply.Returns?)
  {
  }
}
