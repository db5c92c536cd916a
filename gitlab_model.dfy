/**
 * The GitLab records the helper reads from the upstream API (GLUser,
 * GLMembership, GLVariable) and GitLab's access levels.  Only the fields the
 * helper reads are kept; records decoded from the upstream have every field
 * present.
 */
module GitLabModel {

  /**
   * A GitLab access level, known only by its place in GitLab's total order.
   * GLPermission itself is not part of this model.
   */
  datatype AccessLevel = AccessLevel(rank: int)

  /** GLPermission.MAINTAINER: GitLab's access level 40. */
  const MAINTAINER: AccessLevel := AccessLevel(40)

  /** GLPermission.compareAccessLevel: the sign of the difference of the ranks. */
  function CompareAccessLevel(a: AccessLevel, b: AccessLevel): (c: int)
    ensures c < 0 <==> a.rank < b.rank
    ensures c == 0 <==> a == b
    ensures -1 <= c <= 1
  {
    if a.rank < b.rank then -1 else if a.rank == b.rank then 0 else 1
  }

  /** The comparison is a total order: antisymmetric in sign and transitive. */
  lemma CompareIsTotalOrder(a: AccessLevel, b: AccessLevel, c: AccessLevel)
    ensures CompareAccessLevel(a, b) == -CompareAccessLevel(b, a)
    ensures CompareAccessLevel(a, b) <= 0 && CompareAccessLevel(b, c) <= 0 ==> CompareAccessLevel(a, c) <= 0
  {
  }

  /** GLUser: the id is what the helper uses. */
  datatype GLUser = GLUser(id: int, username: string)

  /** GLMembership: the user's relation to one group (source). */
  datatype GLMembership = GLMembership(sourceId: int, sourceName: string, sourceType: string, permission: AccessLevel)

  /** GLVariable: a CI/CD variable as the upstream reports it. */
  datatype GLVariable = GLVariable(key: string, value: string, variableType: string,
                                   isProtected: bool, isMasked: bool, environmentScope: string)
}
