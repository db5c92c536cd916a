/**
 * The helper's own roles (HelperPermission): three values, each carrying a
 * Spring Security role name, and the lookup from a role name back to the
 * value through a table built once from all values.
 */
module HelperPermission {
  import opened JavaLang

  datatype HelperPermission = GUEST | USER | ADMIN

  /** HelperPermission.values(), in declaration order. */
  const VALUES: seq<HelperPermission> := [GUEST, USER, ADMIN]

  /** getRole */
  function Role(p: HelperPermission): string {
    match p
    case GUEST => "ROLE_GUEST"
    case USER => "ROLE_USER"
    case ADMIN => "ROLE_ADMIN"
  }

  /**
   * Collectors.toMap(getRole, identity) over the given values: the role
   * table, or None where toMap would throw because two values share a role.
   */
  function CollectRoleMap(ps: seq<HelperPermission>): (r: Option<map<string, HelperPermission>>)
    ensures r.Some? ==> forall p :: p in ps ==> Role(p) in r.value && r.value[Role(p)] == p
    ensures r.Some? ==> forall role :: role in r.value ==> r.value[role] in ps && Role(r.value[role]) == role
  {
    if ps == [] then Some(map[])
    else
      match CollectRoleMap(ps[..|ps| - 1])
      case None => None
      case Some(m) =>
        var p := ps[|ps| - 1];
        if Role(p) in m then None else Some(m[Role(p) := p])
  }

  /** No two values share a role, so the static table is built without an exception. */
  lemma RoleMapIsDefined()
    ensures CollectRoleMap(VALUES).Some?
  {
    assert VALUES[..|VALUES| - 1] == [GUEST, USER];
    assert [GUEST, USER][..1] == [GUEST];
    assert [GUEST][..0] == [];
    assert CollectRoleMap([GUEST]) == Some(map["ROLE_GUEST" := GUEST]);
    assert CollectRoleMap([GUEST, USER]) == Some(map["ROLE_GUEST" := GUEST, "ROLE_USER" := USER]);
  }

  /** ENUM_NAME_MAP */
  function EnumNameMap(): (m: map<string, HelperPermission>)
    ensures forall p: HelperPermission :: Role(p) in m && m[Role(p)] == p
    ensures forall role :: role in m ==> Role(m[role]) == role
  {
    ExactlyThreeValues();
    RoleMapIsDefined();
    CollectRoleMap(VALUES).value
  }

  /** fromRole: HashMap.get, which answers null for null and for every unknown role. */
  function FromRole(role: JString): (r: Option<HelperPermission>)
    ensures r.Some? ==> role == Some(Role(r.value))
  {
    if role.Some? && role.value in EnumNameMap() then Some(EnumNameMap()[role.value]) else None
  }

  lemma ExactlyThreeValues()
    ensures |VALUES| == 3
    ensures forall p: HelperPermission :: p in VALUES
    ensures Role(GUEST) == "ROLE_GUEST" && Role(USER) == "ROLE_USER" && Role(ADMIN) == "ROLE_ADMIN"
  {
    forall p: HelperPermission ensures p in VALUES {
      assert p == VALUES[0] || p == VALUES[1] || p == VALUES[2];
    }
  }

  lemma RolesDistinct(p: HelperPermission, q: HelperPermission)
    ensures Role(p) == Role(q) <==> p == q
  {
  }

  lemma FromRoleRoundTrip(p: HelperPermission)
    ensures FromRole(Some(Role(p))) == Some(p)
  {
  }

  /** null and every string other than the three role names map to null. */
  lemma FromRoleUnknown(role: JString)
    requires forall p: HelperPermission :: role != Some(Role(p))
    ensures FromRole(role) == None
  {
  }
}
