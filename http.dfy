/**
 * The parts of Spring's HTTP client API that the helper builds and sends:
 * methods, header/body entities, form bodies (LinkedMultiValueMap) and the
 * request targets handed to RestTemplate.exchange.
 */
module Http {
  import opened JavaLang

  datatype HttpMethod = GET | POST | PUT | DELETE

  /** A request that changes upstream state. */
  predicate IsMutating(m: HttpMethod) {
    m != GET
  }

  type Uri = string

  const CONTENT_TYPE: string := "Content-Type"
  const APPLICATION_JSON: string := "application/json"
  const APPLICATION_FORM_URLENCODED: string := "application/x-www-form-urlencoded"

  /**
   * A LinkedMultiValueMap<String, String>: the keys in the order of their
   * first insertion, each with its values in the order they were added.
   */
  type MultiValueMap = seq<(string, seq<string>)>

  function Keys(m: MultiValueMap): seq<string> {
    if m == [] then [] else [m[0].0] + Keys(m[1..])
  }

  /** The values stored under key k (get(k), with null read as the empty list). */
  function Get(m: MultiValueMap, k: string): seq<string> {
    if m == [] then [] else if m[0].0 == k then m[0].1 else Get(m[1..], k)
  }

  /** A map built only by Add never holds a key twice. */
  predicate DistinctKeys(m: MultiValueMap) {
    forall i, j :: 0 <= i < j < |m| ==> m[i].0 != m[j].0
  }

  /** LinkedMultiValueMap.add: append v to k's values, adding k at the end if it is new. */
  function Add(m: MultiValueMap, k: string, v: string): (r: MultiValueMap)
    ensures Get(r, k) == Get(m, k) + [v]
    ensures forall k' :: k' != k ==> Get(r, k') == Get(m, k')
    ensures Keys(r) == if k in Keys(m) then Keys(m) else Keys(m) + [k]
    ensures k !in Keys(m) ==> r == m + [(k, [v])]
  {
    if m == [] then [(k, [v])]
    else if m[0].0 == k then [(k, m[0].1 + [v])] + m[1..]
    else [m[0]] + Add(m[1..], k, v)
  }

  /** An HttpEntity: its headers and, for form posts, its body. */
  datatype Entity = Entity(headers: map<string, string>, form: Option<MultiValueMap>)

  /**
   * Where a request goes: a URL template expanded with uri variables, or a
   * ready URI that is used as it is.
   */
  datatype Target = Template(url: string, uriVariables: map<string, string>) | Resource(uri: Uri)

  /** One call of RestTemplate.exchange. */
  datatype HttpRequest = HttpRequest(verb: HttpMethod, target: Target, entity: Entity)
}
