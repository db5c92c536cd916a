/**
 * AbstractRestClient: URL building, uri-variable maps, the authentication
 * entity, the try/catch wrappers around RestTemplate.exchange and the
 * decision whether a failure is logged.
 *
 * The upstream's answer to an exchange is a parameter (`reply`); each
 * wrapper returns the requests it sends, what it returns to its caller and
 * whether it logs the failure.
 */
module RestClient {
  import opened JavaLang
  import opened Http

  /** RestClientConfig: the parts the client logic reads. */
  datatype RestClientConfig = RestClientConfig(serverUrl: string, apiPath: string, perPage: int)

  /** A client: its configuration and the authentication entity prepared once at construction. */
  datatype RestClient = RestClient(config: RestClientConfig, authenticationEntity: Entity)

  /** The requests a client call sent, what it hands back, and whether it logged an error. */
  datatype ClientCall<+R> = ClientCall(requests: seq<HttpRequest>, result: R, logged: bool)

  /** perPageAsString */
  function PerPageAsString(config: RestClientConfig): string {
    IntToString(config.perPage)
  }

  /** getApiUrl */
  function GetApiUrl(config: RestClientConfig, apiCall: string): string {
    config.serverUrl + config.apiPath + apiCall
  }

  /** The URL is the server URL, then the API path, then the call, with nothing in between. */
  lemma ApiUrlParts(config: RestClientConfig, apiCall: string)
    ensures var url := GetApiUrl(config, apiCall);
            var n := |config.serverUrl| + |config.apiPath|;
            && |url| == n + |apiCall|
            && url[..|config.serverUrl|] == config.serverUrl
            && url[|config.serverUrl|..n] == config.apiPath
            && url[n..] == apiCall
  {
  }

  /** createAuthenticationEntity: a JSON content type and the one authentication header. */
  function CreateAuthenticationEntity(headerName: string, headerValue: string): (e: Entity)
    ensures headerName in e.headers && e.headers[headerName] == headerValue
    ensures e.form == None
  {
    Entity(map[CONTENT_TYPE := APPLICATION_JSON][headerName := headerValue], None)
  }

  /** The client after prepareAuthenticationEntity has assigned its authentication entity. */
  function PrepareAuthenticationEntity(config: RestClientConfig, headerName: string, headerValue: string): (c: RestClient)
    ensures c.config == config
    ensures headerName in c.authenticationEntity.headers && c.authenticationEntity.headers[headerName] == headerValue
  {
    RestClient(config, CreateAuthenticationEntity(headerName, headerValue))
  }

  // ---------------------------------------------------------------------------
  // createVariablesMap

  /** The (name, value) pairs of an even argument list, read two at a time. */
  function PairsOf(variables: seq<string>): (ps: seq<(string, string)>)
    requires |variables| % 2 == 0
    ensures |ps| == |variables| / 2
    decreases |variables|
  {
    if variables == [] then [] else [(variables[0], variables[1])] + PairsOf(variables[2..])
  }

  /** Pair p is (variables[2p], variables[2p+1]). */
  lemma {:induction false} PairsOfIndex(variables: seq<string>)
    requires |variables| % 2 == 0
    ensures forall p :: 0 <= p < |PairsOf(variables)| ==> PairsOf(variables)[p] == (variables[2 * p], variables[2 * p + 1])
    decreases |variables|
  {
    if variables != [] {
      PairsOfIndex(variables[2..]);
      var ps := PairsOf(variables);
      forall p | 0 <= p < |ps| ensures ps[p] == (variables[2 * p], variables[2 * p + 1]) {
        if p > 0 {
          assert ps[p] == PairsOf(variables[2..])[p - 1];
          assert variables[2..][2 * (p - 1)] == variables[2 * p];
          assert variables[2..][2 * (p - 1) + 1] == variables[2 * p + 1];
        }
      }
    }
  }

  /** An even number of arguments left, and at least one: there is a whole pair, and an even number after it. */
  lemma EvenStep(i: int, n: int)
    requires (n - i) % 2 == 0 && i < n
    ensures i + 2 <= n && (n - (i + 2)) % 2 == 0
  {
  }

  /** Pairing distributes over concatenation of even lists. */
  lemma {:induction false} PairsOfAppend(a: seq<string>, b: seq<string>)
    requires |a| % 2 == 0 && |b| % 2 == 0
    ensures PairsOf(a + b) == PairsOf(a) + PairsOf(b)
    decreases |a|
  {
    if a == [] {
      assert a + b == b;
    } else {
      assert (a + b)[2..] == a[2..] + b;
      PairsOfAppend(a[2..], b);
    }
  }

  /** HashMap.put of each pair in turn, starting from m. */
  function PutAll(m: map<string, string>, ps: seq<(string, string)>): map<string, string>
    decreases |ps|
  {
    if ps == [] then m else PutAll(m[ps[0].0 := ps[0].1], ps[1..])
  }

  /** The map createVariablesMap builds from an even argument list. */
  function VariablesMap(variables: seq<string>): map<string, string>
    requires |variables| % 2 == 0
  {
    PutAll(map[], PairsOf(variables))
  }

  /** After putting the pairs, a name is present iff it was or some pair has it, and a later pair wins. */
  lemma {:induction false} PutAllLookup(m: map<string, string>, ps: seq<(string, string)>, k: string)
    ensures k in PutAll(m, ps) <==> k in m || exists p :: 0 <= p < |ps| && ps[p].0 == k
    ensures forall p :: 0 <= p < |ps| && ps[p].0 == k && (forall q :: p < q < |ps| ==> ps[q].0 != k) ==>
                          k in PutAll(m, ps) && PutAll(m, ps)[k] == ps[p].1
    ensures (forall p :: 0 <= p < |ps| ==> ps[p].0 != k) && k in m ==> PutAll(m, ps)[k] == m[k]
    decreases |ps|
  {
    if ps != [] {
      var m' := m[ps[0].0 := ps[0].1];
      PutAllLookup(m', ps[1..], k);
      assert forall p :: 1 <= p < |ps| ==> ps[1..][p - 1] == ps[p];
    }
  }

  /**
   * createVariablesMap's map: a name is present iff it stands at some even
   * index, and it maps to the argument after its last occurrence there.
   */
  lemma VariablesMapLookup(variables: seq<string>, k: string)
    requires |variables| % 2 == 0
    ensures k in VariablesMap(variables) <==> exists p :: 0 <= p < |variables| / 2 && variables[2 * p] == k
    ensures forall p :: 0 <= p < |variables| / 2 && variables[2 * p] == k &&
                        (forall q :: p < q < |variables| / 2 ==> variables[2 * q] != k) ==>
                          k in VariablesMap(variables) && VariablesMap(variables)[k] == variables[2 * p + 1]
  {
    var ps := PairsOf(variables);
    PairsOfIndex(variables);
    PutAllLookup(map[], ps, k);
    if exists p :: 0 <= p < |variables| / 2 && variables[2 * p] == k {
      var p :| 0 <= p < |variables| / 2 && variables[2 * p] == k;
      assert ps[p].0 == k;
    }
  }

  /**
   * createVariablesMap: an odd number of arguments throws; otherwise each
   * even-index argument is put with the argument after it.
   */
  method CreateVariablesMap(variables: seq<string>) returns (r: Call<map<string, string>>)
    ensures |variables| % 2 != 0 ==> r == Throws(IllegalState)
    ensures |variables| % 2 == 0 ==> r == Returns(VariablesMap(variables))
  {
    if |variables| % 2 != 0 {
      return Throws(IllegalState);
    }
    var uriVariables: map<string, string> := map[];
    var i := 0;
    while i < |variables|
      invariant 0 <= i <= |variables| && (|variables| - i) % 2 == 0
      invariant PutAll(uriVariables, PairsOf(variables[i..])) == VariablesMap(variables)
      decreases |variables| - i
    {
      EvenStep(i, |variables|);
      assert variables[i..][2..] == variables[i + 2..];
      assert PairsOf(variables[i..]) == [(variables[i], variables[i + 1])] + PairsOf(variables[i + 2..]);
      uriVariables := uriVariables[variables[i] := variables[i + 1]];
      i := i + 2;
    }
    return Returns(uriVariables);
  }

  // ---------------------------------------------------------------------------
  // logException

  /**
   * Whether logException writes an error: always, except for a
   * RestClientResponseException whose raw status is in a non-null ignore list.
   */
  predicate WouldLog(e: Exception, ignoreStatus: Option<seq<int>>) {
    !(e.ResponseException? && ignoreStatus.Some? && e.rawStatusCode in ignoreStatus.value)
  }

  /** logException, reduced to its decision whether to log. */
  method LogException(e: Exception, ignoreStatus: Option<seq<int>>) returns (logged: bool)
    ensures logged == WouldLog(e, ignoreStatus)
  {
    if e.ResponseException? {
      if ignoreStatus.Some? {
        var statuses := ignoreStatus.value;
        for i := 0 to |statuses|
          invariant e.rawStatusCode !in statuses[..i]
        {
          if e.rawStatusCode == statuses[i] {
            return false;
          }
        }
        assert statuses[..|statuses|] == statuses;
      }
      return true;
    } else {
      return true;
    }
  }

  // ---------------------------------------------------------------------------
  // The try/catch wrappers around one exchange

  /** catch (Exception e): the body on success, otherwise null and the logging decision. */
  function CatchAll<T>(reply: Call<T>, ignoreStatus: Option<seq<int>>): (r: (Option<T>, bool))
    ensures r.0.Some? <==> reply.Returns?
    ensures reply.Returns? ==> r.0 == Some(reply.value) && !r.1
    ensures reply.Throws? ==> r.1 == WouldLog(reply.error, ignoreStatus)
  {
    match reply
    case Returns(body) => (Some(body), false)
    case Throws(e) => (None, WouldLog(e, ignoreStatus))
  }

  /** catch (RestClientException e): as CatchAll, but any other exception propagates unlogged. */
  function CatchRestClientException<T>(reply: Call<T>, ignoreStatus: Option<seq<int>>): (r: (Call<Option<T>>, bool))
    ensures reply.Returns? ==> r == (Returns(Some(reply.value)), false)
    ensures reply.Throws? && IsRestClientException(reply.error) ==>
              r == (Returns(None), WouldLog(reply.error, ignoreStatus))
    ensures reply.Throws? && !IsRestClientException(reply.error) ==> r == (Throws(reply.error), false)
  {
    match reply
    case Returns(body) => (Returns(Some(body)), false)
    case Throws(e) => if IsRestClientException(e) then (Returns(None), WouldLog(e, ignoreStatus)) else (Throws(e), false)
  }

  /** makeReadApiCall: one request with the client's authentication entity. */
  function MakeReadApiCall<T>(client: RestClient, apiCall: string, verb: HttpMethod,
                              uriVariables: map<string, string>, ignoreStatus: Option<seq<int>>,
                              reply: Call<T>): ClientCall<Option<T>>
  {
    var request := HttpRequest(verb, Template(GetApiUrl(client.config, apiCall), uriVariables), client.authenticationEntity);
    var (result, logged) := CatchAll(reply, ignoreStatus);
    ClientCall([request], result, logged)
  }

  /** The base makeReadListApiCall: exactly one request, no pagination. */
  function MakeReadListApiCall<T>(client: RestClient, apiCall: string, verb: HttpMethod,
                                  uriVariables: map<string, string>, ignoreStatus: Option<seq<int>>,
                                  reply: Call<seq<T>>): ClientCall<Option<seq<T>>>
  {
    MakeReadApiCall(client, apiCall, verb, uriVariables, ignoreStatus, reply)
  }

  /** makeWriteApiCall(apiCall, method, entity, uriVariables): true iff the exchange returned. */
  function MakeWriteApiCallWithEntity(client: RestClient, apiCall: string, verb: HttpMethod, entity: Entity,
                                      uriVariables: map<string, string>, ignoreStatus: Option<seq<int>>,
                                      reply: Call<()>): ClientCall<bool>
  {
    var request := HttpRequest(verb, Template(GetApiUrl(client.config, apiCall), uriVariables), entity);
    var (result, logged) := CatchAll(reply, ignoreStatus);
    ClientCall([request], result.Some?, logged)
  }

  /** makeWriteApiCall(apiCall, method, uriVariables): as above with the client's authentication entity. */
  function MakeWriteApiCall(client: RestClient, apiCall: string, verb: HttpMethod,
                            uriVariables: map<string, string>, ignoreStatus: Option<seq<int>>,
                            reply: Call<()>): ClientCall<bool>
  {
    MakeWriteApiCallWithEntity(client, apiCall, verb, client.authenticationEntity, uriVariables, ignoreStatus, reply)
  }

  /** makeWriteApiCall(apiCall, method, typeReference, uriVariables): the body, or null on any exception. */
  function MakeWriteApiCallReturning<T>(client: RestClient, apiCall: string, verb: HttpMethod,
                                        uriVariables: map<string, string>, ignoreStatus: Option<seq<int>>,
                                        reply: Call<T>): ClientCall<Option<T>>
  {
    MakeReadApiCall(client, apiCall, verb, uriVariables, ignoreStatus, reply)
  }

  /** makeWriteApiCall(apiCall, method, entity, type, uriVariables): as above with the given entity. */
  function MakeWriteApiCallWithBody<T>(client: RestClient, apiCall: string, verb: HttpMethod, entity: Entity,
                                       uriVariables: map<string, string>, ignoreStatus: Option<seq<int>>,
                                       reply: Call<T>): ClientCall<Option<T>>
  {
    var request := HttpRequest(verb, Template(GetApiUrl(client.config, apiCall), uriVariables), entity);
    var (result, logged) := CatchAll(reply, ignoreStatus);
    ClientCall([request], result, logged)
  }

  /**
   * Every wrapper sends exactly one request to getApiUrl(apiCall) with the
   * given uri variables; the value-returning ones answer the body on success
   * and null on any exception, the boolean ones true iff the exchange did not
   * throw; and the ignore list only decides the logging, never the result.
   */
  lemma WrapperContracts<T>(client: RestClient, apiCall: string, verb: HttpMethod, entity: Entity,
                            uriVariables: map<string, string>, ignore1: Option<seq<int>>, ignore2: Option<seq<int>>,
                            reply: Call<T>, unitReply: Call<()>, listReply: Call<seq<T>>)
    ensures var r := MakeReadListApiCall(client, apiCall, verb, uriVariables, ignore1, listReply);
            && r.requests == [HttpRequest(verb, Template(GetApiUrl(client.config, apiCall), uriVariables), client.authenticationEntity)]
            && r.result == (if listReply.Returns? then Some(listReply.value) else None)
            && r.result == MakeReadListApiCall(client, apiCall, verb, uriVariables, ignore2, listReply).result
    ensures var r := MakeReadApiCall(client, apiCall, verb, uriVariables, ignore1, reply);
            && r.requests == [HttpRequest(verb, Template(GetApiUrl(client.config, apiCall), uriVariables), client.authenticationEntity)]
            && r.result == (if reply.Returns? then Some(reply.value) else None)
            && (reply.Returns? ==> !r.logged)
            && r.result == MakeReadApiCall(client, apiCall, verb, uriVariables, ignore2, reply).result
    ensures var r := MakeWriteApiCallReturning(client, apiCall, verb, uriVariables, ignore1, reply);
            && r.requests == [HttpRequest(verb, Template(GetApiUrl(client.config, apiCall), uriVariables), client.authenticationEntity)]
            && r.result == (if reply.Returns? then Some(reply.value) else None)
            && r.result == MakeWriteApiCallReturning(client, apiCall, verb, uriVariables, ignore2, reply).result
    ensures var r := MakeWriteApiCallWithBody(client, apiCall, verb, entity, uriVariables, ignore1, reply);
            && r.requests == [HttpRequest(verb, Template(GetApiUrl(client.config, apiCall), uriVariables), entity)]
            && r.result == (if reply.Returns? then Some(reply.value) else None)
            && r.result == MakeWriteApiCallWithBody(client, apiCall, verb, entity, uriVariables, ignore2, reply).result
    ensures var r := MakeWriteApiCall(client, apiCall, verb, uriVariables, ignore1, unitReply);
            && r.requests == [HttpRequest(verb, Template(GetApiUrl(client.config, apiCall), uriVariables), client.authenticationEntity)]
            && (r.result <==> unitReply.Returns?)
            && r.result == MakeWriteApiCall(client, apiCall, verb, uriVariables, ignore2, unitReply).result
    ensures var r := MakeWriteApiCallWithEntity(client, apiCall, verb, entity, uriVariables, ignore1, unitReply);
            && r.requests == [HttpRequest(verb, Template(GetApiUrl(client.config, apiCall), uriVariables), entity)]
            && (r.result <==> unitReply.Returns?)
            && r.result == MakeWriteApiCallWithEntity(client, apiCall, verb, entity, uriVariables, ignore2, unitReply).result
  {
  }

  /** The logging decision that the wrappers record is exactly logException's. */
  lemma IgnoredStatusNotLogged<T>(client: RestClient, apiCall: string, verb: HttpMethod,
                                  uriVariables: map<string, string>, statuses: seq<int>, status: int)
    ensures var r := MakeReadApiCall<T>(client, apiCall, verb, uriVariables, Some(statuses), Throws(ResponseException(status)));
            r.result == None && (r.logged <==> status !in statuses)
    ensures MakeReadApiCall<T>(client, apiCall, verb, uriVariables, Some(statuses), Throws(TransportException)).logged
  {
  }
}
