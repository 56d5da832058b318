# rust-admin: department hierarchy, role-sign rule and menu types

A Dafny model of the small pieces of logic in the rust-admin RBAC backend's
service and model layers:

- **Department hierarchy** (`service/src/system_dept.rs`). Departments are
  `Info` values wrapping a table row. They are arranged in a forest of `Dept`
  nodes, one node per department with its ordered children.
  `get_children_ids` walks a forest in pre-order and grows a `Vec<i32>` in
  place. It pushes a department's id whenever that department's parent id is
  already in the vector, and it descends into children whether or not their
  parent matched. `get_dept_children_ids` seeds the vector with the requested
  id. `get_children_dept` is the scope filter over a flat list. At each level it
  keeps every department (no scope) or the direct children of the scope id. For
  every department it then recurses on the same full list, scoped to that
  department. So on any non-empty list it never returns. The model runs it with
  a bound on the nesting depth ("fuel") and proves that every bound runs out.
  The node helpers (`TreeInfo`, the `From` conversions, `set_child`) are small
  functions.
- **Role-sign conflict** (`service/src/system_role.rs`). `get_by_sign` looks up
  the role holding a sign. It reports that role as a conflicting duplicate only
  when the caller named the role being edited and the found role is a
  different one. So it never reports a conflict when no id is given. Also
  modelled: the conversion of a role into `InfoWithMenuIds`.
- **Menu types** (`model/src/entity/system_menu.rs`). `MenuType` has six
  variants with the fixed `i32` codes 1 to 6. The model proves the round trip
  through the integer representation and that decoding succeeds exactly on
  1..6.

`get_children_dept` looks like a filter that returns a scope's descendants. It
actually recurses on its full, unchanged input for every element, so it cannot
terminate on a non-empty list (`SystemDept.NonEmptyNeverReturns`). The
collected ids of `get_children_ids` are an ordered `Vec` that only grows, and
the model keeps that order.

Files: `common.dfy` (the `i32` type and `Option`), `system_dept.dfy`,
`system_role.dfy`, `system_menu.dfy`.

## Model

| member | source | states |
|---|---|---|
| `SystemDept.InfoFromEntity` | service/src/system_dept.rs:123-127 | no contract of its own: wraps the entity unchanged; `SystemDept.ProjectionsOfEntity` states what reading it back gives |
| `SystemDept.Info.GetId` | service/src/system_dept.rs:133-135 | no contract of its own: the entity's `id`; stated by `SystemDept.ProjectionsOfEntity` |
| `SystemDept.Info.GetParentId` | service/src/system_dept.rs:129-131 | no contract of its own: the entity's `parent_id`; stated by `SystemDept.ProjectionsOfEntity` |
| `SystemDept.ProjectionsOfEntity` | service/src/system_dept.rs:123-136 | `get_id` and `get_parent_id` of an `Info` built from an entity return that entity's `id` and `parent_id` |
| `SystemDept.DeptFromInfo` | service/src/system_dept.rs:144-151 | the node keeps the given `Info` and has no children, so its subtree's pre-order is just that department |
| `SystemDept.DeptFromEntity` | service/src/system_dept.rs:152-159 | building a node from an entity gives the same node as going through `Info` first |
| `SystemDept.SetChild` | service/src/system_dept.rs:161-165 | `children` is replaced wholesale and the department is kept, so the subtree becomes that department followed by the new children's subtrees |
| `SystemDept.SetChildLastWins` | service/src/system_dept.rs:161-165 | setting children twice leaves only the second list |
| `SystemDept.IdVec.Push` | service/src/system_dept.rs:38 | `Vec::push`: the id is appended at the end and nothing else changes |
| `SystemDept.CollectedIds` | service/src/system_dept.rs:35-45 | no contract of its own: the list `get_children_ids` leaves behind; its properties are stated by `SystemDept.CollectedIsPreorderScan`, `SystemDept.VisitRule`, `SystemDept.CollectedIdsGrowth` and `SystemDept.CollectsWholeLinkedForest` |
| `SystemDept.GetChildrenIds` | service/src/system_dept.rs:35-45 | the vector passed in is grown in place and returned, and its new contents are the walk of the forest from its old contents |
| `SystemDept.GetDeptChildrenIds` | service/src/system_dept.rs:29-33 | the walk is seeded with `[parent_dept_id]`, so the requested id is always the first element of the result |
| `SystemDept.CollectedIsPreorderScan` | service/src/system_dept.rs:36-42 | the walk equals a left-to-right scan of the forest's departments in pre-order: parent first, then its children left to right, then later siblings |
| `SystemDept.VisitRule` | service/src/system_dept.rs:37-39 | a department's id is pushed iff its parent id is in the vector as it stands after every department before it in pre-order |
| `SystemDept.CollectedIdsGrowth` | service/src/system_dept.rs:35-45 | the walk only appends: the incoming list is a prefix of the result, the result is at most one id per department longer, and every appended id is the id of a department of the forest |
| `SystemDept.CollectsWholeLinkedForest` | service/src/system_dept.rs:35-45 | on a forest where each child names its parent, and whose roots' parents are already listed, the walk appends the ids of all departments, in pre-order |
| `SystemDept.ChainExample` | service/src/system_dept.rs:35-45 | the chain 1 -> 2 -> 3 walked from `[1]` gives `[1, 2, 3]` |
| `SystemDept.UnmatchedParentStillWalked` | service/src/system_dept.rs:40-42 | children of a department that was not pushed are still walked and can be pushed |
| `SystemDept.Selected` | service/src/system_dept.rs:103-112 | one iteration pushes its department iff there is no scope or the department's parent id is the scope id, and pushes nothing else |
| `SystemDept.Level` | service/src/system_dept.rs:102-115 | no contract of its own: the loop with each recursive call's outcome given as a parameter; stated by `SystemDept.LevelReturns`, `SystemDept.LevelDiverges` and `SystemDept.LevelSelection` |
| `SystemDept.Descend` | service/src/system_dept.rs:113 | no contract of its own: the recursive call on the same full list, scoped to the department's id, with one nesting level less |
| `SystemDept.ChildrenDept` | service/src/system_dept.rs:100-117 | no contract of its own: the fuel-bounded `get_children_dept`; stated by `SystemDept.EmptyReturnsEmpty` and `SystemDept.NonEmptyNeverReturns` |
| `SystemDept.LevelReturns` | service/src/system_dept.rs:102-115 | when every recursive call returns, the result is, for each department in input order, its own push followed by its recursive results |
| `SystemDept.LevelDiverges` | service/src/system_dept.rs:113-114 | once the recursive call for one department does not return, neither does the loop |
| `SystemDept.LevelSelection` | service/src/system_dept.rs:102-112 | apart from the recursive results, an unscoped level returns every department in input order, and a scoped level exactly those whose parent id is the scope id, in input order |
| `SystemDept.EmptyReturnsEmpty` | service/src/system_dept.rs:100-117 | on an empty list the result is the empty list, for any scope |
| `SystemDept.NonEmptyNeverReturns` | service/src/system_dept.rs:102-115 | on any non-empty list the call does not return within any bound on the nesting depth, because each level recurses on the same full list |
| `SystemDept.GetChildrenDept` | service/src/system_dept.rs:100-117 | the loop with pushes, recursive calls and extends computes the fuel-bounded `get_children_dept` |
| `SystemRole.GetBySign` | service/src/system_role.rs:81-84 | the result is a role iff an id was given, a role was found and the found role's id differs from it; in that case it is exactly the found role |
| `SystemRole.NoRoleNoConflict` | service/src/system_role.rs:81-84 | no role found for the sign means no conflict |
| `SystemRole.NoIdNoConflict` | service/src/system_role.rs:81-84 | with no id given there is no conflict, even when a role holds the sign |
| `SystemRole.SelfIsNoConflict` | service/src/system_role.rs:82 | the role being edited does not conflict with itself |
| `SystemRole.OtherRoleConflicts` | service/src/system_role.rs:82 | a found role with a different id is returned unchanged |
| `SystemRole.FromEntity` | service/src/system_role.rs:94-101 | the role is kept unchanged and `menu_ids` starts empty |
| `SystemRole.FromEntityInjective` | service/src/system_role.rs:94-101 | distinct roles convert to distinct records |
| `SystemMenu.Code` | model/src/entity/system_menu.rs:199-214 | every code lies in 1..6 |
| `SystemMenu.FromCode` | model/src/entity/system_menu.rs:199-214 | decoding succeeds exactly on 1..6, and encoding the decoded variant gives the code back |
| `SystemMenu.CodesAreFixed` | model/src/entity/system_menu.rs:201-214 | the codes are Menu=1, Redirect=2, Link=3, Iframe=4, BtnAuth=5, Api=6 |
| `SystemMenu.RoundTrip` | model/src/entity/system_menu.rs:199-214 | decoding the code of any variant gives that variant |
| `SystemMenu.RoundTripCode` | model/src/entity/system_menu.rs:199-214 | re-encoding a successfully decoded code gives the same code |
| `SystemMenu.CodeInjective` | model/src/entity/system_menu.rs:201-214 | two variants have the same code iff they are the same variant |

## Left out

- Building the department forest (`get_tree_start_parent_id`, `vec_to_tree_into` from `utils::tree`, service/src/system_dept.rs:4, 49-50, 83-84): `utils::tree` is not part of this model. `GetChildrenIds` and `GetDeptChildrenIds` take an arbitrary forest as input, and `get_dept_tree` and `get_user_dept_trees` are not modelled.
- Database access: the async `find`, `query`, `paginate`, `insert`, `create`, `update`, `soft_delete`, `delete` and `soft_delete_transaction` of the menu entity, and the service wrappers that take a pooled connection and forward (`create`, `update`, `delete`, `info`, `info_by_name`, `get_depts`, `get_depts_by_user_id`, `all`, `paginate`). The role looked up by sign in `get_by_sign` is a parameter of `SystemRole.GetBySign`. In `info`, the `menu_ids` are filled from a query, and that step is not modelled.
- Table columns other than `id` and `parent_id`: the department and role rows carry them as one `name` string, plus the role's `sign`, which is only the key of the database lookup that is not modelled. Timestamps (`SystemTime::now()`) and soft-delete markers are not modelled.
- Serde attributes (`flatten`, the derives): library behaviour. Only the integer representation of `MenuType` is modelled.
- `SystemDept.SetChild`: modelled on values. A `Dept` is an exclusively owned Rust value with no shared references, so updating it through `&mut self` is the same as returning the updated value.
- `SystemDept.GetChildrenDept`: the unbounded recursion is bounded by `fuel`, and `None` means "has not returned within that depth". A real run would fail with a stack overflow rather than loop forever, and the model does not distinguish the two.
- The generated `member_bills` entity and the dictionary-table migration: they hold no logic.
