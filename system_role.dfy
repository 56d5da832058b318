/** The role service: the sign-conflict decision of `get_by_sign` and the
    conversion of a role into the record that also carries its menu ids. */
module SystemRole {
  import opened Common

  /** A row of the role table. Only `id` is compared here; `sign` is the key of
      the database lookup, which is not modelled, and the other columns stand
      in as `name`. */
  datatype Entity = Entity(id: i32, name: string, sign: string)

  /** `InfoWithMenuIds`: a role together with the ids of its menus. */
  datatype InfoWithMenuIds = InfoWithMenuIds(info: Entity, menuIds: seq<i32>)

  /** The decision of `get_by_sign`: `roleResult` is the role the table holds for
      the sign (if any), `id` the role being edited (if any). A found role is a
      conflicting duplicate only when an id was given and the found role is
      a different one. */
  function GetBySign(id: Option<i32>, roleResult: Option<Entity>): (r: Option<Entity>)
    ensures r.Some? <==> id.Some? && roleResult.Some? && roleResult.value.id != id.value
    ensures r.Some? ==> r == roleResult
  {
    match id
    case Some(editing) =>
      (match roleResult
       case Some(role) => if role.id != editing then Some(role) else None
       case None => None)
    case None => None
  }

  /** Nothing found for the sign: never a conflict. */
  lemma NoRoleNoConflict(id: Option<i32>)
    ensures GetBySign(id, None) == None
  {
  }

  /** Without an id the answer is `None` even when a role holds the sign. */
  lemma NoIdNoConflict(role: Entity)
    ensures GetBySign(None, Some(role)) == None
  {
  }

  /** The role being edited does not conflict with itself. */
  lemma SelfIsNoConflict(role: Entity)
    ensures GetBySign(Some(role.id), Some(role)) == None
  {
  }

  /** A role with another id is reported, unchanged. */
  lemma OtherRoleConflicts(id: i32, role: Entity)
    requires role.id != id
    ensures GetBySign(Some(id), Some(role)) == Some(role)
  {
  }

  /** `From<system_role::Entity> for InfoWithMenuIds`: the role is kept as it is
      and the menu ids start out empty (the service fills them in later). */
  function FromEntity(data: Entity): (r: InfoWithMenuIds)
    ensures r.info == data && r.menuIds == []
  {
    InfoWithMenuIds(data, [])
  }

  /** The conversion loses nothing: distinct roles give distinct records. */
  lemma FromEntityInjective(a: Entity, b: Entity)
    ensures FromEntity(a) == FromEntity(b) <==> a == b
  {
  }
}
