/**
 * GitLabService: the layer between the controller and Client.  It
 * turns the optional variable attributes of a create or update into the
 * client's settings list and otherwise hands calls through.
 */
module GitLabService {
  import opened JavaLang
  import opened Http
  import opened RestClient
  import opened GitLabModel
  import Client = GitLabClient

  /** Boolean.toString */
  function BooleanToString(b: bool): string {
    if b then "true" else "false"
  }

  /** The rendering of a nullable Boolean argument: null stays null. */
  function BooleanArgument(b: Option<bool>): JString {
    if b.Some? then Some(BooleanToString(b.value)) else None
  }

  /** One setting's contribution: its name and value, or nothing for a null argument. */
  function Setting(name: string, argument: JString): seq<string> {
    if argument.Some? then [name, argument.value] else []
  }

  /** The same contribution as a (name, value) pair. */
  function SettingPair(name: string, argument: JString): seq<(string, string)> {
    if argument.Some? then [(name, argument.value)] else []
  }

  /** The list createVariableSettings returns. */
  function VariableSettings(variableType: JString, isProtected: Option<bool>, isMasked: Option<bool>,
                            environmentScope: JString): seq<string>
  {
    Setting("variable_type", variableType) + Setting("protected", BooleanArgument(isProtected)) +
    Setting("masked", BooleanArgument(isMasked)) + Setting("environment_scope", environmentScope)
  }

  /** The settings as pairs, in the fixed order variable_type, protected, masked, environment_scope. */
  function VariableSettingPairs(variableType: JString, isProtected: Option<bool>, isMasked: Option<bool>,
                                environmentScope: JString): seq<(string, string)>
  {
    SettingPair("variable_type", variableType) + SettingPair("protected", BooleanArgument(isProtected)) +
    SettingPair("masked", BooleanArgument(isMasked)) + SettingPair("environment_scope", environmentScope)
  }

  function NonNullCount(variableType: JString, isProtected: Option<bool>, isMasked: Option<bool>,
                        environmentScope: JString): nat
  {
    (if variableType.Some? then 1 else 0) + (if isProtected.Some? then 1 else 0) +
    (if isMasked.Some? then 1 else 0) + (if environmentScope.Some? then 1 else 0)
  }

  /** createVariableSettings: a list built by appending name and value for each non-null argument. */
  method CreateVariableSettings(variableType: JString, isProtected: Option<bool>, isMasked: Option<bool>,
                                environmentScope: JString) returns (settings: seq<string>)
    ensures settings == VariableSettings(variableType, isProtected, isMasked, environmentScope)
  {
    settings := [];
    if variableType.Some? {
      settings := settings + ["variable_type"];
      settings := settings + [variableType.value];
    }
    assert settings == Setting("variable_type", variableType);
    ghost var prefix := settings;
    if isProtected.Some? {
      settings := settings + ["protected"];
      settings := settings + [BooleanToString(isProtected.value)];
    }
    assert settings == prefix + Setting("protected", BooleanArgument(isProtected));
    prefix := settings;
    if isMasked.Some? {
      settings := settings + ["masked"];
      settings := settings + [BooleanToString(isMasked.value)];
    }
    assert settings == prefix + Setting("masked", BooleanArgument(isMasked));
    prefix := settings;
    if environmentScope.Some? {
      settings := settings + ["environment_scope"];
      settings := settings + [environmentScope.value];
    }
    assert settings == prefix + Setting("environment_scope", environmentScope);
  }

  /** Two entries per non-null argument: always even, empty exactly when every argument is null. */
  lemma SettingsLength(variableType: JString, isProtected: Option<bool>, isMasked: Option<bool>, environmentScope: JString)
    ensures |VariableSettings(variableType, isProtected, isMasked, environmentScope)|
            == 2 * NonNullCount(variableType, isProtected, isMasked, environmentScope)
    ensures |VariableSettings(variableType, isProtected, isMasked, environmentScope)| % 2 == 0
    ensures VariableSettings(variableType, isProtected, isMasked, environmentScope) == [] <==>
              variableType.None? && isProtected.None? && isMasked.None? && environmentScope.None?
  {
  }

  /** Each name is immediately followed by its value, in the fixed order, and null arguments are skipped. */
  lemma SettingsPairs(variableType: JString, isProtected: Option<bool>, isMasked: Option<bool>, environmentScope: JString)
    ensures |VariableSettings(variableType, isProtected, isMasked, environmentScope)| % 2 == 0
    ensures PairsOf(VariableSettings(variableType, isProtected, isMasked, environmentScope))
            == VariableSettingPairs(variableType, isProtected, isMasked, environmentScope)
  {
    var a := Setting("variable_type", variableType);
    SettingPairOf("variable_type", variableType);
    assert [] + a == a;
    AppendSetting([], "variable_type", variableType);
    AppendSetting(a, "protected", BooleanArgument(isProtected));
    var b := a + Setting("protected", BooleanArgument(isProtected));
    AppendSetting(b, "masked", BooleanArgument(isMasked));
    var c := b + Setting("masked", BooleanArgument(isMasked));
    AppendSetting(c, "environment_scope", environmentScope);
  }

  /** Appending one setting to an even list appends its pair. */
  lemma AppendSetting(a: seq<string>, name: string, argument: JString)
    requires |a| % 2 == 0
    ensures |a + Setting(name, argument)| % 2 == 0
    ensures PairsOf(a + Setting(name, argument)) == PairsOf(a) + SettingPair(name, argument)
  {
    SettingPairOf(name, argument);
    PairsOfAppend(a, Setting(name, argument));
  }

  lemma SettingPairOf(name: string, argument: JString)
    ensures |Setting(name, argument)| % 2 == 0
    ensures PairsOf(Setting(name, argument)) == SettingPair(name, argument)
  {
    if argument.Some? {
      assert [name, argument.value][2..] == [];
    }
  }

  predicate NamesIn(ps: seq<(string, string)>, names: set<string>) {
    forall p :: 0 <= p < |ps| ==> ps[p].0 in names
  }

  lemma AppendDistinct(ps: seq<(string, string)>, qs: seq<(string, string)>, s: set<string>, t: set<string>)
    requires Client.DistinctNames(ps) && Client.DistinctNames(qs) && NamesIn(ps, s) && NamesIn(qs, t) && s !! t
    ensures Client.DistinctNames(ps + qs) && NamesIn(ps + qs, s + t)
  {
    forall p, q | 0 <= p < q < |ps + qs| ensures (ps + qs)[p].0 != (ps + qs)[q].0 {
      if q < |ps| {
      } else if p < |ps| {
        assert (ps + qs)[p].0 in s && (ps + qs)[q].0 in t;
      } else {
        assert (ps + qs)[p] == qs[p - |ps|] && (ps + qs)[q] == qs[q - |ps|];
      }
    }
  }

  lemma SettingPairNamed(name: string, argument: JString)
    ensures Client.DistinctNames(SettingPair(name, argument)) && NamesIn(SettingPair(name, argument), {name})
  {
  }

  /** The four setting names: distinct, and neither "key" nor "value". */
  lemma SettingNamesDistinct(variableType: JString, isProtected: Option<bool>, isMasked: Option<bool>, environmentScope: JString)
    ensures |VariableSettings(variableType, isProtected, isMasked, environmentScope)| % 2 == 0
    ensures Client.DistinctSettingNames(VariableSettings(variableType, isProtected, isMasked, environmentScope))
  {
    SettingsPairs(variableType, isProtected, isMasked, environmentScope);
    var a := SettingPair("variable_type", variableType);
    var b := SettingPair("protected", BooleanArgument(isProtected));
    var c := SettingPair("masked", BooleanArgument(isMasked));
    var d := SettingPair("environment_scope", environmentScope);
    SettingPairNamed("variable_type", variableType);
    SettingPairNamed("protected", BooleanArgument(isProtected));
    SettingPairNamed("masked", BooleanArgument(isMasked));
    SettingPairNamed("environment_scope", environmentScope);
    var s1, s2, s3, s4 := {"variable_type"}, {"protected"}, {"masked"}, {"environment_scope"};
    AppendDistinct(a, b, s1, s2);
    AppendDistinct(a + b, c, s1 + s2, s3);
    AppendDistinct(a + b + c, d, s1 + s2 + s3, s4);
    assert "key" !in s1 + s2 + s3 + s4 && "value" !in s1 + s2 + s3 + s4;
  }

  /** The service as the controller sees it. */
  datatype GitLabService = GitLabService(client: Client.GitLabClient)

  function GetUser(service: GitLabService, personalAccessToken: JString, reply: Call<GLUser>)
    : ClientCall<Call<Option<GLUser>>>
  {
    Client.GetUser(service.client, personalAccessToken, reply)
  }

  function GetGroupMemberships(service: GitLabService, userId: int, pages: Client.PageChain<GLMembership>)
    : ClientCall<Call<Option<seq<GLMembership>>>>
  {
    Client.GetGroupMemberships(service.client, userId, pages)
  }

  function GetGroupVariables(service: GitLabService, groupId: int, pages: Client.PageChain<GLVariable>)
    : ClientCall<Call<Option<seq<GLVariable>>>>
  {
    Client.GetGroupVariables(service.client, groupId, pages)
  }

  /** The form of a create: "key", "value", then one single-valued entry per non-null attribute, in the fixed order. */
  function CreateForm(key: string, value: string, variableType: JString, isProtected: Option<bool>,
                      isMasked: Option<bool>, environmentScope: JString): MultiValueMap
  {
    [("key", [key]), ("value", [value])] +
    Client.Singletons(VariableSettingPairs(variableType, isProtected, isMasked, environmentScope))
  }

  /** The form of an update: as a create's, without the "key" entry. */
  function UpdateForm(value: string, variableType: JString, isProtected: Option<bool>,
                      isMasked: Option<bool>, environmentScope: JString): MultiValueMap
  {
    [("value", [value])] + Client.Singletons(VariableSettingPairs(variableType, isProtected, isMasked, environmentScope))
  }

  /** The POST that creates key in group groupId: the group's variables URL, form headers with the service token. */
  function CreateVariableRequest(service: GitLabService, groupId: int, key: string, value: string,
                                 variableType: JString, isProtected: Option<bool>, isMasked: Option<bool>,
                                 environmentScope: JString): HttpRequest
  {
    HttpRequest(POST, Client.GroupVariablesTarget(service.client, groupId),
                Entity(Client.FormHeaders(service.client),
                       Some(CreateForm(key, value, variableType, isProtected, isMasked, environmentScope))))
  }

  /** The PUT that updates key in group groupId: the key's URL, form headers with the service token. */
  function UpdateVariableRequest(service: GitLabService, groupId: int, key: string, value: string,
                                 variableType: JString, isProtected: Option<bool>, isMasked: Option<bool>,
                                 environmentScope: JString): HttpRequest
  {
    HttpRequest(PUT, Client.VariableTarget(service.client, groupId, key),
                Entity(Client.FormHeaders(service.client),
                       Some(UpdateForm(value, variableType, isProtected, isMasked, environmentScope))))
  }

  /** The DELETE of key in group groupId: the key's URL with the service's authentication entity. */
  function DeleteVariableRequest(service: GitLabService, groupId: int, key: string): HttpRequest {
    HttpRequest(DELETE, Client.VariableTarget(service.client, groupId, key), service.client.AuthenticationEntity())
  }

  /**
   * createGroupVariable: the settings list is always even, so the client
   * never throws; it sends one POST whose form holds the key, the value
   * and one entry per non-null attribute, and answers the body or null.
   */
  function CreateGroupVariable(service: GitLabService, groupId: int, key: string, value: string,
                               variableType: JString, isProtected: Option<bool>, isMasked: Option<bool>,
                               environmentScope: JString, reply: Call<GLVariable>)
    : (r: ClientCall<Call<Option<GLVariable>>>)
    ensures r.result == Returns(if reply.Returns? then Some(reply.value) else None)
    ensures |r.requests| == 1 && r.requests[0].verb == POST
    ensures r.requests[0].entity.form == Some(CreateForm(key, value, variableType, isProtected, isMasked, environmentScope))
    ensures r.requests[0].target == Client.GroupVariablesTarget(service.client, groupId)
    ensures r.requests == [CreateVariableRequest(service, groupId, key, value, variableType, isProtected, isMasked, environmentScope)]
  {
    var settings := VariableSettings(variableType, isProtected, isMasked, environmentScope);
    SettingsPairs(variableType, isProtected, isMasked, environmentScope);
    SettingNamesDistinct(variableType, isProtected, isMasked, environmentScope);
    Client.SettingsMapSingletons(Some(key), value, settings);
    assert [("key", [key])] + [("value", [value])] == [("key", [key]), ("value", [value])];
    Client.CreateGroupVariable(service.client, groupId, key, value, settings, reply)
  }

  /**
   * updateGroupVariable: as create, but a PUT to the key's URL whose form
   * holds no "key" entry.
   */
  function UpdateGroupVariable(service: GitLabService, groupId: int, key: string, value: string,
                               variableType: JString, isProtected: Option<bool>, isMasked: Option<bool>,
                               environmentScope: JString, reply: Call<GLVariable>)
    : (r: ClientCall<Call<Option<GLVariable>>>)
    ensures r.result == Returns(if reply.Returns? then Some(reply.value) else None)
    ensures |r.requests| == 1 && r.requests[0].verb == PUT
    ensures r.requests[0].entity.form == Some(UpdateForm(value, variableType, isProtected, isMasked, environmentScope))
    ensures r.requests[0].target == Client.VariableTarget(service.client, groupId, key)
    ensures r.requests == [UpdateVariableRequest(service, groupId, key, value, variableType, isProtected, isMasked, environmentScope)]
  {
    var settings := VariableSettings(variableType, isProtected, isMasked, environmentScope);
    SettingsPairs(variableType, isProtected, isMasked, environmentScope);
    SettingNamesDistinct(variableType, isProtected, isMasked, environmentScope);
    Client.SettingsMapSingletons(None, value, settings);
    Client.UpdateGroupVariable(service.client, groupId, key, value, settings, reply)
  }

  /** deleteGroupVariable: exactly the DELETE of the key's URL; true iff it did not throw. */
  function DeleteGroupVariable(service: GitLabService, groupId: int, key: string, reply: Call<()>): (r: ClientCall<bool>)
    ensures r.requests == [DeleteVariableRequest(service, groupId, key)]
    ensures r.result <==> reply.Returns?
  {
    Client.DeleteGroupVariable(service.client, groupId, key, reply)
  }

  /** HashMap.put of a non-null argument; a null argument leaves the map as it is. */
  function Put(m: map<string, string>, name: string, argument: JString): map<string, string> {
    if argument.Some? then m[name := argument.value] else m
  }

  lemma {:induction false} PutAllAppend(m: map<string, string>, ps: seq<(string, string)>, qs: seq<(string, string)>)
    ensures PutAll(m, ps + qs) == PutAll(PutAll(m, ps), qs)
    decreases |ps|
  {
    if ps == [] {
      assert ps + qs == qs;
    } else {
      assert (ps + qs)[1..] == ps[1..] + qs;
      PutAllAppend(m[ps[0].0 := ps[0].1], ps[1..], qs);
    }
  }

  lemma PutAllSettingPair(m: map<string, string>, name: string, argument: JString)
    ensures PutAll(m, SettingPair(name, argument)) == Put(m, name, argument)
  {
    if argument.Some? {
      assert [(name, argument.value)][1..] == [];
    }
  }

  /** Reading the settings back as uri-style variables recovers exactly the non-null arguments. */
  lemma SettingsRoundTrip(variableType: JString, isProtected: Option<bool>, isMasked: Option<bool>, environmentScope: JString)
    ensures var settings := VariableSettings(variableType, isProtected, isMasked, environmentScope);
            |settings| % 2 == 0 &&
            var m := VariablesMap(settings);
            && ("variable_type" in m <==> variableType.Some?) && (variableType.Some? ==> m["variable_type"] == variableType.value)
            && ("protected" in m <==> isProtected.Some?) && (isProtected.Some? ==> m["protected"] == BooleanToString(isProtected.value))
            && ("masked" in m <==> isMasked.Some?) && (isMasked.Some? ==> m["masked"] == BooleanToString(isMasked.value))
            && ("environment_scope" in m <==> environmentScope.Some?) && (environmentScope.Some? ==> m["environment_scope"] == environmentScope.value)
            && (forall k :: k in m ==> k in {"variable_type", "protected", "masked", "environment_scope"})
  {
    SettingsPairs(variableType, isProtected, isMasked, environmentScope);
    var a := SettingPair("variable_type", variableType);
    var b := SettingPair("protected", BooleanArgument(isProtected));
    var c := SettingPair("masked", BooleanArgument(isMasked));
    var d := SettingPair("environment_scope", environmentScope);
    PutAllAppend(map[], a + b + c, d);
    PutAllAppend(map[], a + b, c);
    PutAllAppend(map[], a, b);
    var m1 := Put(map[], "variable_type", variableType);
    var m2 := Put(m1, "protected", BooleanArgument(isProtected));
    var m3 := Put(m2, "masked", BooleanArgument(isMasked));
    var m4 := Put(m3, "environment_scope", environmentScope);
    PutAllSettingPair(map[], "variable_type", variableType);
    PutAllSettingPair(m1, "protected", BooleanArgument(isProtected));
    PutAllSettingPair(m2, "masked", BooleanArgument(isMasked));
    PutAllSettingPair(m3, "environment_scope", environmentScope);
    assert VariablesMap(VariableSettings(variableType, isProtected, isMasked, environmentScope)) == m4;
    PutChain("variable_type", "protected", "masked", "environment_scope",
             variableType, BooleanArgument(isProtected), BooleanArgument(isMasked), environmentScope);
  }

  /** Four puts under distinct names: each name is present iff its argument is not null, with that argument. */
  lemma PutChain(n1: string, n2: string, n3: string, n4: string, a1: JString, a2: JString, a3: JString, a4: JString)
    requires n1 != n2 && n1 != n3 && n1 != n4 && n2 != n3 && n2 != n4 && n3 != n4
    ensures var m := Put(Put(Put(Put(map[], n1, a1), n2, a2), n3, a3), n4, a4);
            && (n1 in m <==> a1.Some?) && (a1.Some? ==> m[n1] == a1.value)
            && (n2 in m <==> a2.Some?) && (a2.Some? ==> m[n2] == a2.value)
            && (n3 in m <==> a3.Some?) && (a3.Some? ==> m[n3] == a3.value)
            && (n4 in m <==> a4.Some?) && (a4.Some? ==> m[n4] == a4.value)
            && (forall k :: k in m ==> k in {n1, n2, n3, n4})
  {
  }
}
