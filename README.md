# gitlab-helper in Dafny

A model of the core of gitlab-helper. It is a small HTTP service that sits
in front of GitLab and lets a caller list their groups and read, create,
update and delete a group's CI/CD variables. The caller authenticates with
their own GitLab personal access token. Every request to a group's variables
first resolves the caller's GitLab user, then validates the input. It then
finds the caller's membership of the group and requires at least MAINTAINER
access. Finally it re-reads the group's variables to check that the key does
(or does not) exist before it delegates to the GitLab API.

The model has one module per layer of the program:

- `JavaLang`: Java's null (`Option`), the exceptions that matter, `StringUtils.hasText`, `Long.toString`, `String.hashCode`.
- `Http`: HTTP verbs, request targets, entities with headers and an optional form body, and the insertion-ordered `LinkedMultiValueMap`.
- `RestClient` (AbstractRestClient):
  - `getApiUrl` and `createVariablesMap`, the latter as a loop-carrying method.
  - The authentication entity.
  - The `logException` ignore-list decision, as a method with its loop.
  - The try/catch wrappers around one exchange.
- `GitLabClient`:
  - `makeReadListApiCall`, the paginated read, as a method with its do-while loop over `rel="next"` pages.
  - `createSettingsMap`, as a method with its stride-2 loop.
  - The `getUser` token guard, the parity checks of create and update, and the GitLab calls.
- `GitLabService`: `createVariableSettings`, as a method building the list step by step, and the delegating calls.
- `GroupVariablesController`: the five endpoints and their private steps, as functions from the request and upstream answers to a reply.
- `ControllerProperties`: lemmas about the controller pipeline: ordering, the MAINTAINER gate, and when an upstream mutation happens.
- `ApiModel`, `GitLabModel`, `HelperPermission`: the records, the maskable-value rule, key-based equality, access levels and the role lookup.

The upstream GitLab is not called. Every exchange comes in as a parameter:
- A single call is a `Call<T>`, which either returns a value or throws an exception.
- A paginated list is a finite `PageChain`: each page either failed, is the last one, or carries a next link and what requesting that link yields.

Each endpoint answers a `Reply`: the outcome (a value, a `ResponseStatusException` with its status and reason, or an exception passing through) together with the exact upstream requests it sent, in order.

Two behaviours of the code are modelled as written:
- Listing a group's variables goes through the membership check, so it also requires MAINTAINER.
- A blank token makes `GitLabClient.getUser` throw `IllegalStateException`. That exception passes through every endpoint: a blank token is never answered 401.

## Model

| member | source | states |
|---|---|---|
| GitLabClient.MakeReadListApiCall | src/main/java/org/vaulttec/gitlab/helper/gitlab/GitLabClient.java:157-181 | the paginated read, loop included, yields exactly `ReadList` of the page chain; the uri variables afterwards hold perPage |
| GitLabClient.ResumeReadsRest | src/main/java/org/vaulttec/gitlab/helper/gitlab/GitLabClient.java:162-176 | resuming the do-while loop at any page sends one request per remaining next link and collects the remaining bodies in order, or ends with the exception that stopped the chain |
| GitLabClient.Failed | src/main/java/org/vaulttec/gitlab/helper/gitlab/GitLabClient.java:177-180 | the catch block: a RestClientException gives null with logException's decision, anything else propagates; the requests are kept |
| GitLabClient.ReadListResult | src/main/java/org/vaulttec/gitlab/helper/gitlab/GitLabClient.java:161-180 | the result is a list iff no request failed, and then it is the in-order concatenation of all page bodies; a failure gives null (RestClientException) or the exception, never a prefix |
| GitLabClient.SinglePage | src/main/java/org/vaulttec/gitlab/helper/gitlab/GitLabClient.java:163-166 | a first page without a next link is answered as it is, after exactly one request |
| GitLabClient.ReadListRequests | src/main/java/org/vaulttec/gitlab/helper/gitlab/GitLabClient.java:159-171 | one request more than there are next links; the first goes to the per_page URL with perPage added; each follow-up goes to the next link verbatim without uri variables; all use the same verb and the service-token entity |
| GitLabClient.ListUrlQuery | src/main/java/org/vaulttec/gitlab/helper/gitlab/GitLabClient.java:159 | per_page is joined with `&` when apiCall has a `?`, and with `?` otherwise |
| GitLabClient.RequestsMatchPages | src/main/java/org/vaulttec/gitlab/helper/gitlab/GitLabClient.java:163-174 | bodies are one more than next links when the chain completed, and equally many when it stopped |
| GitLabClient.FlattenLength | src/main/java/org/vaulttec/gitlab/helper/gitlab/GitLabClient.java:168-172 | the collected list's length is the sum of the page lengths |
| GitLabClient.FullPagesThenPartial | src/main/java/org/vaulttec/gitlab/helper/gitlab/GitLabClient.java:168-172 | N full pages of P items and a last page of r items give N·P + r items |
| GitLabClient.FollowUpRequests | src/main/java/org/vaulttec/gitlab/helper/gitlab/GitLabClient.java:170-171 | one follow-up request per link, in link order |
| GitLabClient.GitLabClient.Base | src/main/java/org/vaulttec/gitlab/helper/gitlab/GitLabClient.java:56-59 | the constructed client keeps its configuration, and its authentication entity carries the configured token under PRIVATE-TOKEN |
| GitLabClient.CreateSettingsMap | src/main/java/org/vaulttec/gitlab/helper/gitlab/GitLabClient.java:134-144 | the form body the loop builds is `SettingsMap`: "key" when not null, "value", then each settings pair added in order |
| GitLabClient.AddSettingsPairs | src/main/java/org/vaulttec/gitlab/helper/gitlab/GitLabClient.java:140-142 | reading an even settings list two entries at a time adds exactly its (name, value) pairs |
| GitLabClient.SettingsMapContents | src/main/java/org/vaulttec/gitlab/helper/gitlab/GitLabClient.java:134-144 | under each name the body holds the key (only for "key" and a non-null key), the value (for "value"), then every setting value of that name in order; the body starts with "key", "value" (create) or "value" (update) |
| GitLabClient.InitialFormContents | src/main/java/org/vaulttec/gitlab/helper/gitlab/GitLabClient.java:136-139 | before the settings the body is "key" with the key when it is not null, then "value" with the value |
| GitLabClient.AddAllGet | src/main/java/org/vaulttec/gitlab/helper/gitlab/GitLabClient.java:140-142 | adding pairs appends each pair's value to its name's list, in order |
| GitLabClient.AddAllKeysPrefix | src/main/java/org/vaulttec/gitlab/helper/gitlab/GitLabClient.java:140-142 | adding pairs never reorders or removes the names already in the body |
| GitLabClient.AddAllFresh | src/main/java/org/vaulttec/gitlab/helper/gitlab/GitLabClient.java:140-142 | pairs whose names are fresh and distinct are appended as one single-valued entry each |
| GitLabClient.SettingsMapSingletons | src/main/java/org/vaulttec/gitlab/helper/gitlab/GitLabClient.java:134-144 | with distinct setting names the body is exactly "key", "value" and one entry per setting, each holding one value |
| GitLabClient.Singletons | src/main/java/org/vaulttec/gitlab/helper/gitlab/GitLabClient.java:140-142 | one single-valued entry per pair, in order |
| GitLabClient.KeysAppend | src/main/java/org/vaulttec/gitlab/helper/gitlab/GitLabClient.java:135-143 | the names of two concatenated bodies are the names of each, in order |
| GitLabClient.BlankTokenThrows | src/main/java/org/vaulttec/gitlab/helper/gitlab/GitLabClient.java:61-70 | a null, empty or whitespace token throws IllegalStateException before any request; any other token sends exactly one GET to /user, and a RestClientException then gives null |
| GitLabClient.TokensUsed | src/main/java/org/vaulttec/gitlab/helper/gitlab/GitLabClient.java:58-131 | getUser authenticates with the caller's token, and create, update and delete with the configured service token |
| GitLabClient.ParityCheck | src/main/java/org/vaulttec/gitlab/helper/gitlab/GitLabClient.java:97-115 | create and update throw IllegalStateException exactly when the settings have odd length, and then send nothing |
| GitLabClient.CreateBody | src/main/java/org/vaulttec/gitlab/helper/gitlab/GitLabClient.java:97-110 | create sends a POST to /groups/{groupId}/variables with groupId as its uri variable; the form starts with "key" holding the key, then "value" holding the value |
| GitLabClient.UpdateRequest | src/main/java/org/vaulttec/gitlab/helper/gitlab/GitLabClient.java:112-125 | update sends a PUT to /groups/{groupId}/variables/{key} with groupId and key as uri variables; the form starts with "value" and holds no key first |
| GitLabClient.DeleteGroupVariable | src/main/java/org/vaulttec/gitlab/helper/gitlab/GitLabClient.java:127-132 | exactly one DELETE to the key's URL with the service-token entity; true iff the exchange did not throw |
| GitLabClient.DeleteRequest | src/main/java/org/vaulttec/gitlab/helper/gitlab/GitLabClient.java:127-132 | the DELETE goes to /groups/{groupId}/variables/{key} with groupId and key as its uri variables and carries the configured service token |
| GitLabClient.TwoVariables | src/main/java/org/vaulttec/gitlab/helper/gitlab/GitLabClient.java:118 | the four-argument variables map puts the two names in order |
| GitLabClient.OneVariable | src/main/java/org/vaulttec/gitlab/helper/gitlab/GitLabClient.java:103 | the two-argument variables map holds the one name with its value |
| GitLabClient.IdUriVariables | src/main/java/org/vaulttec/gitlab/helper/gitlab/GitLabClient.java:103 | the uri variables of a user or group URL map exactly the one name ("userId" at line 75, "groupId" at lines 93 and 103) to the decimal id |
| GitLabClient.KeyUriVariables | src/main/java/org/vaulttec/gitlab/helper/gitlab/GitLabClient.java:118 | the uri variables of a key URL map exactly "groupId" to the decimal id and "key" to the key |
| GitLabClient.TargetsDistinguish | src/main/java/org/vaulttec/gitlab/helper/gitlab/GitLabClient.java:102-103 | two group variable URLs are equal iff their group ids are, two key URLs iff both group and key are, and a group URL is never a key URL |
| RestClient.CreateVariablesMap | src/main/java/org/vaulttec/http/client/AbstractRestClient.java:71-80 | an odd argument count throws IllegalStateException; otherwise the loop builds `VariablesMap` |
| RestClient.VariablesMapLookup | src/main/java/org/vaulttec/http/client/AbstractRestClient.java:75-79 | a name is in the map iff it stands at an even index, and it maps to the argument after its last such occurrence |
| RestClient.PutAllLookup | src/main/java/org/vaulttec/http/client/AbstractRestClient.java:76-78 | after the puts a name is present iff it was or some pair has it, the last pair with it wins, and untouched names keep their value |
| RestClient.PairsOfIndex | src/main/java/org/vaulttec/http/client/AbstractRestClient.java:76-77 | pair p of an even argument list is (variables[2p], variables[2p+1]) |
| RestClient.PairsOf | src/main/java/org/vaulttec/http/client/AbstractRestClient.java:76-77 | an even list of 2n arguments gives n pairs |
| RestClient.PairsOfAppend | src/main/java/org/vaulttec/http/client/AbstractRestClient.java:76-77 | pairing two even lists one after the other gives their pairs one after the other |
| RestClient.ApiUrlParts | src/main/java/org/vaulttec/http/client/AbstractRestClient.java:67-69 | the URL is the server URL, then the API path, then the call, with nothing in between |
| RestClient.CreateAuthenticationEntity | src/main/java/org/vaulttec/http/client/AbstractRestClient.java:86-91 | the entity carries the authentication header with the given value, and no body |
| RestClient.PrepareAuthenticationEntity | src/main/java/org/vaulttec/http/client/AbstractRestClient.java:82-84 | the client keeps its configuration and its authentication entity carries the given header |
| RestClient.LogException | src/main/java/org/vaulttec/http/client/AbstractRestClient.java:169-187 | the loop over the ignore list decides exactly `WouldLog`: it skips logging iff the exception is a RestClientResponseException whose raw status is in a non-null ignore list |
| RestClient.CatchAll | src/main/java/org/vaulttec/http/client/AbstractRestClient.java:93-104 | catch-all wrapper: the body iff the exchange returned, and otherwise null and the logging decision |
| RestClient.CatchRestClientException | src/main/java/org/vaulttec/gitlab/helper/gitlab/GitLabClient.java:146-155 | the overrides catch only RestClientException: null and the logging decision for it; any other exception propagates unlogged |
| RestClient.WrapperContracts | src/main/java/org/vaulttec/http/client/AbstractRestClient.java:93-167 | each of the six wrappers sends exactly one request: the given verb, getApiUrl(apiCall) with the given uri variables, and the authentication entity or the given entity; the base list read does no pagination; value wrappers answer the body or null, boolean ones true iff no exception; the ignore list never changes a result |
| RestClient.IgnoredStatusNotLogged | src/main/java/org/vaulttec/http/client/AbstractRestClient.java:169-183 | a response exception is logged iff its status is not ignored, a transport failure always is, and the result is null either way |
| Http.Add | src/main/java/org/vaulttec/gitlab/helper/gitlab/GitLabClient.java:137-141 | LinkedMultiValueMap.add appends the value to its name's list, leaves other names alone, and adds a new name at the end |
| GitLabService.CreateVariableSettings | src/main/java/org/vaulttec/gitlab/helper/gitlab/GitLabService.java:63-82 | the list the conditional adds build is `VariableSettings` |
| GitLabService.SettingsLength | src/main/java/org/vaulttec/gitlab/helper/gitlab/GitLabService.java:63-82 | two entries per non-null argument, so always even, and empty exactly when every argument is null |
| GitLabService.SettingsPairs | src/main/java/org/vaulttec/gitlab/helper/gitlab/GitLabService.java:65-80 | read as pairs, the list is variable_type, protected, masked, environment_scope, with each non-null argument right after its name and null ones skipped |
| GitLabService.SettingNamesDistinct | src/main/java/org/vaulttec/gitlab/helper/gitlab/GitLabService.java:65-80 | the setting names are distinct and neither "key" nor "value" |
| GitLabService.SettingsRoundTrip | src/main/java/org/vaulttec/gitlab/helper/gitlab/GitLabService.java:63-82 | putting the settings into a map recovers exactly the non-null arguments under their names, Booleans as "true"/"false", and no other name |
| GitLabService.CreateGroupVariable | src/main/java/org/vaulttec/gitlab/helper/gitlab/GitLabService.java:49-52 | the client never throws (the settings are even); exactly one request, the POST to /groups/{groupId}/variables with the decimal groupId, form headers with the service token, and the form key, value, then one entry per non-null attribute (CreateForm); the result is the reply or null |
| GitLabService.UpdateGroupVariable | src/main/java/org/vaulttec/gitlab/helper/gitlab/GitLabService.java:54-57 | as create, with exactly one PUT to /groups/{groupId}/variables/{key} with groupId and key, whose form is value, then one entry per non-null attribute (UpdateForm) |
| GitLabService.DeleteGroupVariable | src/main/java/org/vaulttec/gitlab/helper/gitlab/GitLabService.java:59-61 | exactly one request, the DELETE of /groups/{groupId}/variables/{key} with groupId and key and the service entity; true iff the exchange did not throw |
| GroupVariablesController.CheckVariable | src/main/java/org/vaulttec/gitlab/helper/api/GroupVariablesController.java:153-162 | blank key, else blank value, else masked=true with a non-maskable value, each iff its condition; null or false masked never checks the pattern |
| GroupVariablesController.FindFirstMembership | src/main/java/org/vaulttec/gitlab/helper/api/GroupVariablesController.java:127 | none iff no membership has the group's id; otherwise the first one that has it |
| GroupVariablesController.GetUser | src/main/java/org/vaulttec/gitlab/helper/api/GroupVariablesController.java:117-123 | a blank token throws IllegalStateException having sent nothing; any other token sends one GET; the user is answered iff the upstream returns one; a RestClientException is refused 401 as an invalid token, any other exception passes through |
| GroupVariablesController.GetGroupMemberships | src/main/java/org/vaulttec/gitlab/helper/api/GroupVariablesController.java:137-143 | only GETs: first the per_page request to /users/{userId}/memberships?type=Namespace with the user's decimal id, then one request per next link; the outcome is every membership of every page, a 500 refusal when the client answered null (a RestClientException on some page), or the exception |
| GroupVariablesController.GetGroupMembership | src/main/java/org/vaulttec/gitlab/helper/api/GroupVariablesController.java:125-135 | every refusal carries its reason's status: 401 for not a member and insufficient permission |
| GroupVariablesController.GetGroupVariables | src/main/java/org/vaulttec/gitlab/helper/api/GroupVariablesController.java:145-151 | only GETs: first the per_page request to /groups/{groupId}/variables with the membership's group id, then one request per next link; the outcome is every variable of every page, a 500 refusal when the client answered null, or the exception |
| GroupVariablesController.GetGroups | src/main/java/org/vaulttec/gitlab/helper/api/GroupVariablesController.java:49-55 | every refusal carries its reason's status |
| GroupVariablesController.ToGroups | src/main/java/org/vaulttec/gitlab/helper/api/GroupVariablesController.java:54 | one Group(sourceId, sourceName, permission) per membership, in order |
| GroupVariablesController.ToVariables | src/main/java/org/vaulttec/gitlab/helper/api/GroupVariablesController.java:63 | one Variable per GitLab variable, in order |
| GroupVariablesController.ListGroupVariables | src/main/java/org/vaulttec/gitlab/helper/api/GroupVariablesController.java:57-64 | every refusal carries its reason's status |
| GroupVariablesController.Prepare | src/main/java/org/vaulttec/gitlab/helper/api/GroupVariablesController.java:68-72 | the variables are reached only for a variable that checkVariable accepts; every refusal carries its reason's status |
| GroupVariablesController.Written | src/main/java/org/vaulttec/gitlab/helper/api/GroupVariablesController.java:77-80 | a null created or updated variable is refused 500, a returned one is answered as an API Variable, an exception passes through; the requests are all so far plus the write |
| GroupVariablesController.CreateGroupVariable | src/main/java/org/vaulttec/gitlab/helper/api/GroupVariablesController.java:66-81 | every refusal carries its reason's status (400 for input and existence, 401 for user and membership, 500 for upstream nulls) |
| GroupVariablesController.CreatePrepared | src/main/java/org/vaulttec/gitlab/helper/api/GroupVariablesController.java:73-80 | an earlier failure is answered unchanged; an existing key is refused 400 with no further request; otherwise the requests so far are followed by exactly the POST of this variable's key, value and attributes to group groupId (CreateRequestFor), answering the created variable, or 500 when it came back null |
| GroupVariablesController.CreateWrite | src/main/java/org/vaulttec/gitlab/helper/api/GroupVariablesController.java:76-80 | the requests so far are followed by exactly the POST of the variable's key, value and attributes to group groupId's variables URL, answering the created variable, or 500 when the service answered null |
| GroupVariablesController.UpdateGroupVariable | src/main/java/org/vaulttec/gitlab/helper/api/GroupVariablesController.java:83-98 | every refusal carries its reason's status |
| GroupVariablesController.UpdatePrepared | src/main/java/org/vaulttec/gitlab/helper/api/GroupVariablesController.java:90-97 | an earlier failure is answered unchanged; a missing key is refused 400 with no further request; otherwise the requests so far are followed by exactly the PUT of this variable to its key's URL in group groupId (UpdateRequestFor), answering the updated variable, or 500 when it came back null |
| GroupVariablesController.UpdateWrite | src/main/java/org/vaulttec/gitlab/helper/api/GroupVariablesController.java:93-97 | the requests so far are followed by exactly the PUT of the variable's value and attributes to /groups/{groupId}/variables/{key} for groupId and the variable's key, answering the updated variable, or 500 when the service answered null |
| GroupVariablesController.DeleteGroupVariable | src/main/java/org/vaulttec/gitlab/helper/api/GroupVariablesController.java:100-115 | every refusal carries its reason's status |
| GroupVariablesController.DeleteListed | src/main/java/org/vaulttec/gitlab/helper/api/GroupVariablesController.java:109-114 | an earlier failure is answered unchanged; a missing key is refused 400 with no further request; otherwise the requests so far are followed by exactly the DELETE of /groups/{groupId}/variables/{key} for groupId and key, answering success, or 500 when the call failed |
| ControllerProperties.MembershipStep | src/main/java/org/vaulttec/gitlab/helper/api/GroupVariablesController.java:125-135 | succeeds iff the first membership of the group is at least MAINTAINER, answering that membership; a null list is 500, distinct from no match (401 not a member) and below MAINTAINER (401 insufficient) |
| ControllerProperties.EmptyMembershipsNotMember | src/main/java/org/vaulttec/gitlab/helper/api/GroupVariablesController.java:126-130 | an empty membership list is "not a member" |
| ControllerProperties.PrepareStep | src/main/java/org/vaulttec/gitlab/helper/api/GroupVariablesController.java:68-72 | only reads; reaches the variables exactly when the user resolves, the variable is valid, the caller is MAINTAINER and the list arrived |
| ControllerProperties.BlankTokenNeverUnauthorized | src/main/java/org/vaulttec/gitlab/helper/gitlab/GitLabClient.java:62-64 | with a blank token every endpoint throws IllegalStateException having sent nothing, and none answers 401 |
| ControllerProperties.InvalidTokenUnauthorized | src/main/java/org/vaulttec/gitlab/helper/api/GroupVariablesController.java:117-123 | a token the upstream refuses is answered 401 by every endpoint after the single GET /user |
| ControllerProperties.ValidationBeforeMembership | src/main/java/org/vaulttec/gitlab/helper/api/GroupVariablesController.java:68-71 | an invalid variable is refused 400 with checkVariable's reason right after the user, before any membership lookup |
| ControllerProperties.DeleteKeyBeforeMembership | src/main/java/org/vaulttec/gitlab/helper/api/GroupVariablesController.java:102-106 | delete refuses a blank key 400 right after the user, before any membership lookup |
| ControllerProperties.MembershipGate | src/main/java/org/vaulttec/gitlab/helper/api/GroupVariablesController.java:125-135 | without a MAINTAINER membership every group endpoint answers getGroupMembership's refusal after only the user and membership requests: the variables are never read and nothing is mutated |
| ControllerProperties.VariablesFailureAnswered | src/main/java/org/vaulttec/gitlab/helper/api/GroupVariablesController.java:145-151 | when every earlier check passed but the variables could not be read, listing, create, update and delete all answer that failure (500 for null, or the exception) and nothing is mutated |
| ControllerProperties.ReadRequiresMaintainer | src/main/java/org/vaulttec/gitlab/helper/api/GroupVariablesController.java:57-64 | listing variables succeeds iff the user resolves, the caller is MAINTAINER and the list arrived; it answers every variable in order, never mutates, and for a MAINTAINER its variables read is that of groupId itself |
| ControllerProperties.GroupsAreMemberships | src/main/java/org/vaulttec/gitlab/helper/api/GroupVariablesController.java:49-55 | GET /groups succeeds iff the user resolves and the memberships arrive; one Group per membership in order, unfiltered; null is 500; never mutates |
| ControllerProperties.CreateOnlyWhenAuthorized | src/main/java/org/vaulttec/gitlab/helper/api/GroupVariablesController.java:66-81 | a mutating request is sent iff every check passed and the key is new; then everything before the last request is read-only and the last is exactly the POST of this variable to group groupId, answered with the created variable or 500; an existing key is 400 |
| ControllerProperties.UpdateOnlyWhenAuthorized | src/main/java/org/vaulttec/gitlab/helper/api/GroupVariablesController.java:83-98 | a mutating request is sent iff every check passed and the key exists; then everything before the last request is read-only and the last is exactly the PUT of this variable to its key in group groupId, answered with the updated variable or 500; a missing key is 400 |
| ControllerProperties.DeleteOnlyWhenAuthorized | src/main/java/org/vaulttec/gitlab/helper/api/GroupVariablesController.java:100-115 | a mutating request is sent iff the key has text, every check passed and the key exists; then everything before the last request is read-only and the last is exactly the DELETE of that key in group groupId, answered with success or 500; a missing key is 400 |
| ControllerProperties.CreateSendsItsRequest | src/main/java/org/vaulttec/gitlab/helper/api/GroupVariablesController.java:76-80 | an authorized create ends with exactly the POST of the variable's key, value and attributes to group groupId, after read-only requests |
| ControllerProperties.UpdateSendsItsRequest | src/main/java/org/vaulttec/gitlab/helper/api/GroupVariablesController.java:93-97 | an authorized update ends with exactly the PUT of the variable to its key in group groupId, after read-only requests |
| ControllerProperties.DeleteSendsItsRequest | src/main/java/org/vaulttec/gitlab/helper/api/GroupVariablesController.java:112-114 | an authorized delete ends with exactly the DELETE of the key in group groupId, after read-only requests |
| ControllerProperties.ReadOnlyAppend | src/main/java/org/vaulttec/gitlab/helper/api/GroupVariablesController.java:68-72 | requests that only read, one after the other, still only read |
| ApiModel.MaskableIffPattern | src/main/java/org/vaulttec/gitlab/helper/api/model/Variable.java:61-63 | maskable iff non-null, at least eight characters, all from A-Z a-z 0-9 @ : . ~ |
| ApiModel.NotMaskable | src/main/java/org/vaulttec/gitlab/helper/api/model/Variable.java:62 | null, empty and whitespace-containing values are not maskable |
| ApiModel.MaskableExamples | src/main/java/org/vaulttec/gitlab/helper/api/model/Variable.java:27 | "ab" is not maskable, "ABCDEFGH" is |
| ApiModel.MaskableUnderAppend | src/main/java/org/vaulttec/gitlab/helper/api/model/Variable.java:27 | appending allowed characters keeps a value maskable |
| ApiModel.VariableHashCode | src/main/java/org/vaulttec/gitlab/helper/api/model/Variable.java:107-110 | a null key hashes to 0 |
| ApiModel.EqualsAndHashCode | src/main/java/org/vaulttec/gitlab/helper/api/model/Variable.java:97-110 | equality is an equivalence on the key alone (two null keys equal), and equal variables hash alike |
| ApiModel.FromGLVariable | src/main/java/org/vaulttec/gitlab/helper/api/GroupVariablesController.java:80 | the returned Variable carries the GitLab variable's key and value |
| GitLabModel.CompareAccessLevel | src/main/java/org/vaulttec/gitlab/helper/api/GroupVariablesController.java:131 | the comparison is negative iff the rank is lower, zero iff equal |
| GitLabModel.CompareIsTotalOrder | src/main/java/org/vaulttec/gitlab/helper/api/GroupVariablesController.java:131 | the comparison is antisymmetric and transitive |
| HelperPermission.CollectRoleMap | src/main/java/org/vaulttec/gitlab/helper/HelperPermission.java:34-38 | when built, the table maps each value's role to that value and holds nothing else |
| HelperPermission.RoleMapIsDefined | src/main/java/org/vaulttec/gitlab/helper/HelperPermission.java:34-38 | the roles are distinct, so the table is built without a duplicate-key exception |
| HelperPermission.EnumNameMap | src/main/java/org/vaulttec/gitlab/helper/HelperPermission.java:34-38 | every value is found under its role, and every entry's role is its key |
| HelperPermission.FromRole | src/main/java/org/vaulttec/gitlab/helper/HelperPermission.java:44-46 | a found value has the given role |
| HelperPermission.ExactlyThreeValues | src/main/java/org/vaulttec/gitlab/helper/HelperPermission.java:26 | exactly GUEST, USER and ADMIN, with roles ROLE_GUEST, ROLE_USER and ROLE_ADMIN |
| HelperPermission.RolesDistinct | src/main/java/org/vaulttec/gitlab/helper/HelperPermission.java:26 | two values share a role iff they are the same |
| HelperPermission.FromRoleRoundTrip | src/main/java/org/vaulttec/gitlab/helper/HelperPermission.java:40-46 | fromRole(p.getRole()) is p |
| HelperPermission.FromRoleUnknown | src/main/java/org/vaulttec/gitlab/helper/HelperPermission.java:44-46 | null and every other string give null |
| JavaLang.IntToString | src/main/java/org/vaulttec/gitlab/helper/gitlab/GitLabClient.java:75 | the rendering is non-empty and starts with a minus sign iff the number is negative |
| JavaLang.NatToStringInjective | src/main/java/org/vaulttec/gitlab/helper/gitlab/GitLabClient.java:103 | two naturals have the same decimal digits iff they are equal |
| JavaLang.IntToStringInjective | src/main/java/org/vaulttec/gitlab/helper/gitlab/GitLabClient.java:103 | Long.toString is injective, so different group and user ids give different uri variables |

## Left out

- HTTP transport, Spring routing and RestTemplate set-up including the proxy: each exchange's answer is a parameter (`Call` or `PageChain`).
- JSON decoding: records from GitLab have every field present, and a null response body is not modelled.
- LinkHeader parsing: each page carries its next link, if any, directly. LinkHeader.java is not part of this model.
- GLPermission: only its rank order and MAINTAINER (rank 40) are modelled. GLPermission.java is not part of this model.
- Logging: only the decision whether an error is logged is kept; message text and log levels are left out. The controller does not surface that decision.
- `getGroups(search, withStatistics)` in the client: it only builds a URL and no endpoint calls it.
- The race between the existence check and the mutation: each request is modelled as one sequential run.
- Pagination against an upstream that never stops linking: a page chain is finite by construction.
- Java integer widths: group and user ids are unbounded integers, so long overflow is not modelled.
- The client's authentication entity is assigned once in the constructor, so the client is an immutable value. It is not a mutable object.
- makeReadListApiCall's `put` of perPage into the caller's map is returned as a second out-parameter. The map is not changed in place.
- GitLabService.GetUser, GitLabService.GetGroupMemberships, GitLabService.GetGroupVariables: plain pass-throughs to the client, with no contract of their own.
- GroupVariablesController.CreateGroupVariable: its own ensures states only the status classification; its behaviour is stated by ControllerProperties.CreateOnlyWhenAuthorized.
- GroupVariablesController.UpdateGroupVariable: its own ensures states only the status classification; its behaviour is stated by ControllerProperties.UpdateOnlyWhenAuthorized.
- GroupVariablesController.DeleteGroupVariable: its own ensures states only the status classification; its behaviour is stated by ControllerProperties.DeleteOnlyWhenAuthorized.
- GroupVariablesController.GetGroups: its own ensures states only the status classification; its behaviour is stated by ControllerProperties.GroupsAreMemberships.
- GroupVariablesController.ListGroupVariables: its own ensures states only the status classification; its behaviour is stated by ControllerProperties.ReadRequiresMaintainer and ControllerProperties.VariablesFailureAnswered.
- GitLabClient.CreateSettingsMap: requires an even settings list; on an odd one the Java loop would throw ArrayIndexOutOfBoundsException, which is not modelled, because both callers reject odd lists first with IllegalStateException.
- The client's create and update with a null key or value: the controller has already rejected blank ones, so the model takes strings.
- Variable's setters and toString, and the getters of the GitLab records: plain field access.
