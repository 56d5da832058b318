/** The department service's hierarchy helpers: the department nodes, the
    pre-order walk that collects the ids under a department, and the scope
    filter over a flat list of departments. */
module SystemDept {
  import opened Common

  /** A row of the department table. Only `id` and `parent_id` are used by the
      hierarchy logic; the other columns stand in as `name`. */
  datatype Entity = Entity(id: i32, parentId: i32, name: string)

  /** `Info`: a department as the service hands it out. */
  datatype Info = Info(info: Entity)
  {
    /** `TreeInfo::get_id` */
    function GetId(): i32 { info.id }

    /** `TreeInfo::get_parent_id` */
    function GetParentId(): i32 { info.parentId }
  }

  /** `Dept`: a department with its child departments, in tree order. */
  datatype Dept = Dept(info: Info, children: seq<Dept>)

  /** `From<system_dept::Entity> for Info` */
  function InfoFromEntity(value: Entity): Info
  {
    Info(value)
  }

  /** The tree projections read back exactly the entity's own ids. */
  lemma ProjectionsOfEntity(value: Entity)
    ensures InfoFromEntity(value).GetId() == value.id
    ensures InfoFromEntity(value).GetParentId() == value.parentId
  {
  }

  // ---------------------------------------------------------------------------
  // Pre-order of a forest, and the ids of a list of departments
  // ---------------------------------------------------------------------------

  /** The departments of a forest in pre-order: each node, then its children's
      subtrees left to right, then the node's later siblings. */
  function Preorder(forest: seq<Dept>): seq<Info>
    decreases forest
  {
    if forest == [] then []
    else [forest[0].info] + Preorder(forest[0].children) + Preorder(forest[1..])
  }

  /** The ids of a list of departments, in order. */
  function IdsOf(nodes: seq<Info>): (r: seq<i32>)
    ensures |r| == |nodes|
  {
    if nodes == [] then [] else [nodes[0].GetId()] + IdsOf(nodes[1..])
  }

  lemma {:induction false} IdsOfAppend(a: seq<Info>, b: seq<Info>)
    ensures IdsOf(a + b) == IdsOf(a) + IdsOf(b)
  {
    if a == [] {
      assert a + b == b;
    } else {
      assert (a + b)[1..] == a[1..] + b;
      IdsOfAppend(a[1..], b);
    }
  }

  /** `From<Info> for Dept`: a node with no children, so its subtree is itself. */
  function DeptFromInfo(value: Info): (r: Dept)
    ensures r.info == value && r.children == []
    ensures Preorder([r]) == [value]
  {
    Dept(value, [])
  }

  /** `From<system_dept::Entity> for Dept`: the same, through `Info`. */
  function DeptFromEntity(value: Entity): (r: Dept)
    ensures r == DeptFromInfo(InfoFromEntity(value))
    ensures Preorder([r]) == [InfoFromEntity(value)]
  {
    Dept(InfoFromEntity(value), [])
  }

  /** `Tree::set_child`: the children are replaced wholesale, the department
      itself is kept, so the subtree becomes the node followed by `data`. */
  function SetChild(dept: Dept, data: seq<Dept>): (r: Dept)
    ensures r.info == dept.info && r.children == data
    ensures Preorder([r]) == [dept.info] + Preorder(data)
  {
    dept.(children := data)
  }

  /** Setting children twice keeps only the second list. */
  lemma SetChildLastWins(dept: Dept, first: seq<Dept>, second: seq<Dept>)
    ensures SetChild(SetChild(dept, first), second) == SetChild(dept, second)
  {
  }

  // ---------------------------------------------------------------------------
  // get_children_ids
  // ---------------------------------------------------------------------------

  /** One department's visit: its id is pushed iff its parent id is already
      in the list. */
  function Admit(ids: seq<i32>, node: Info): seq<i32>
  {
    if node.GetParentId() in ids then ids + [node.GetId()] else ids
  }

  /** The list `get_children_ids` leaves behind when it walks `forest` starting
      from `ids`: every node is visited (matched or not), then its children,
      then its later siblings. */
  function CollectedIds(forest: seq<Dept>, ids: seq<i32>): seq<i32>
    decreases forest
  {
    if forest == [] then ids
    else CollectedIds(forest[1..], CollectedIds(forest[0].children, Admit(ids, forest[0].info)))
  }

  /** The same list as a flat left-to-right scan of departments. */
  function Scan(nodes: seq<Info>, ids: seq<i32>): seq<i32>
  {
    if nodes == [] then ids else Scan(nodes[1..], Admit(ids, nodes[0]))
  }

  lemma {:induction false} ScanAppend(a: seq<Info>, b: seq<Info>, ids: seq<i32>)
    ensures Scan(a + b, ids) == Scan(b, Scan(a, ids))
  {
    if a != [] {
      assert (a + b)[1..] == a[1..] + b;
      ScanAppend(a[1..], b, Admit(ids, a[0]));
    } else {
      assert a + b == b;
    }
  }

  /** The walk of the tree is the scan of its pre-order: departments are
      visited parent first, children left to right. */
  lemma {:induction false} CollectedIsPreorderScan(forest: seq<Dept>, ids: seq<i32>)
    ensures CollectedIds(forest, ids) == Scan(Preorder(forest), ids)
    decreases forest
  {
    if forest != [] {
      var d := forest[0];
      var self := Admit(ids, d.info);
      CollectedIsPreorderScan(d.children, self);
      CollectedIsPreorderScan(forest[1..], CollectedIds(d.children, self));
      ScanAppend([d.info] + Preorder(d.children), Preorder(forest[1..]), ids);
      ScanAppend([d.info], Preorder(d.children), ids);
    }
  }

  /** The k-th department of the pre-order has its id pushed iff its parent id
      is in the list as it stands after the k departments before it. */
  lemma VisitRule(forest: seq<Dept>, k: nat, ids: seq<i32>)
    requires k < |Preorder(forest)|
    ensures var order := Preorder(forest);
            var before := Scan(order[..k], ids);
            Scan(order[..k + 1], ids)
            == if order[k].GetParentId() in before then before + [order[k].GetId()] else before
  {
    var order := Preorder(forest);
    assert order[..k + 1] == order[..k] + [order[k]];
    ScanAppend(order[..k], [order[k]], ids);
  }

  /** A scan only appends, at most once per department, and only ids of the
      departments scanned. */
  lemma {:induction false} ScanGrowth(nodes: seq<Info>, ids: seq<i32>)
    ensures ids <= Scan(nodes, ids)
    ensures |Scan(nodes, ids)| <= |ids| + |nodes|
    ensures forall x :: x in Scan(nodes, ids)[|ids|..] ==> x in IdsOf(nodes)
  {
    if nodes != [] {
      var next := Admit(ids, nodes[0]);
      ScanGrowth(nodes[1..], next);
      var r := Scan(nodes, ids);
      forall x | x in r[|ids|..] ensures x in IdsOf(nodes) {
        if x !in r[|next|..] {
          assert next != ids;
          assert r[|ids|..] == [nodes[0].GetId()] + r[|next|..];
        }
      }
    }
  }

  /** `get_children_ids` only appends: the list it was given is a prefix of the
      result, at most one id is appended per department of the forest, and
      every appended id is the id of a department of the forest. */
  lemma CollectedIdsGrowth(forest: seq<Dept>, ids: seq<i32>)
    ensures ids <= CollectedIds(forest, ids)
    ensures |CollectedIds(forest, ids)| <= |ids| + |Preorder(forest)|
    ensures forall x :: x in CollectedIds(forest, ids)[|ids|..] ==> x in IdsOf(Preorder(forest))
  {
    CollectedIsPreorderScan(forest, ids);
    ScanGrowth(Preorder(forest), ids);
  }

  /** Every department of `forest` names `id` as its parent. */
  ghost predicate AllChildrenOf(forest: seq<Dept>, id: i32)
    decreases forest
  {
    forest == [] || (forest[0].info.GetParentId() == id && AllChildrenOf(forest[1..], id))
  }

  /** Every child names its parent node as its parent, all the way down. */
  ghost predicate Linked(forest: seq<Dept>)
    decreases forest
  {
    forest == []
    || (AllChildrenOf(forest[0].children, forest[0].info.GetId())
        && Linked(forest[0].children)
        && Linked(forest[1..]))
  }

  /** Every root of `forest` names as its parent an id already in `ids`. */
  ghost predicate RootsListed(forest: seq<Dept>, ids: seq<i32>)
    decreases forest
  {
    forest == [] || (forest[0].info.GetParentId() in ids && RootsListed(forest[1..], ids))
  }

  lemma {:induction false} RootsListedGrows(forest: seq<Dept>, ids: seq<i32>, more: seq<i32>)
    requires RootsListed(forest, ids)
    ensures RootsListed(forest, ids + more)
    decreases forest
  {
    if forest != [] {
      RootsListedGrows(forest[1..], ids, more);
    }
  }

  lemma {:induction false} ChildrenListed(forest: seq<Dept>, id: i32, ids: seq<i32>)
    requires AllChildrenOf(forest, id) && id in ids
    ensures RootsListed(forest, ids)
    decreases forest
  {
    if forest != [] {
      ChildrenListed(forest[1..], id, ids);
    }
  }

  /** The ids of a forest's pre-order: the first root's id, the ids under it,
      then the ids of the later roots' subtrees. */
  lemma PreorderIdsSplit(forest: seq<Dept>)
    requires forest != []
    ensures IdsOf(Preorder(forest))
            == [forest[0].info.GetId()] + IdsOf(Preorder(forest[0].children)) + IdsOf(Preorder(forest[1..]))
  {
    var d := forest[0];
    IdsOfAppend([d.info], Preorder(d.children));
    IdsOfAppend([d.info] + Preorder(d.children), Preorder(forest[1..]));
  }

  /** On a consistently linked forest whose roots hang below ids already in the
      list, the walk appends every department of the forest, in pre-order. */
  lemma {:induction false} CollectsWholeLinkedForest(forest: seq<Dept>, ids: seq<i32>)
    requires Linked(forest) && RootsListed(forest, ids)
    ensures CollectedIds(forest, ids) == ids + IdsOf(Preorder(forest))
    decreases forest
  {
    if forest != [] {
      var d, rest := forest[0], forest[1..];
      var id := d.info.GetId();
      var self := ids + [id];
      var p1, p2 := IdsOf(Preorder(d.children)), IdsOf(Preorder(rest));
      ChildrenListed(d.children, id, self);
      CollectsWholeLinkedForest(d.children, self);
      var afterChildren := CollectedIds(d.children, self);
      AppendAssoc(ids, [id], p1);
      RootsListedGrows(rest, ids, [id] + p1);
      CollectsWholeLinkedForest(rest, afterChildren);
      PreorderIdsSplit(forest);
      AppendAssoc(ids, [id] + p1, p2);
      calc {
        CollectedIds(forest, ids);
        { assert Admit(ids, d.info) == self; }
        CollectedIds(rest, afterChildren);
        afterChildren + p2;
        ids + ([id] + p1 + p2);
        ids + IdsOf(Preorder(forest));
      }
    }
  }

  /** Associativity of concatenation, stated once so that the proofs of
      `CollectsWholeLinkedForest` and `SplicedSnoc` stay cheap for the solver. */
  lemma AppendAssoc<T>(a: seq<T>, b: seq<T>, c: seq<T>)
    ensures a + b + c == a + (b + c)
  {
  }

  /** A chain 1 -> 2 -> 3 walked from `[1]` yields `[1, 2, 3]`. */
  lemma ChainExample()
    ensures var e3 := Dept(Info(Entity(3, 2, "")), []);
            var e2 := Dept(Info(Entity(2, 1, "")), [e3]);
            var e1 := Dept(Info(Entity(1, 0, "")), [e2]);
            CollectedIds([e1], [1]) == [1, 2, 3]
  {
    var e3 := Dept(Info(Entity(3, 2, "")), []);
    var e2 := Dept(Info(Entity(2, 1, "")), [e3]);
    var e1 := Dept(Info(Entity(1, 0, "")), [e2]);
    assert [e3][1..] == [] && [e2][1..] == [];
    assert Linked([e3]) && AllChildrenOf([e3], 2);
    assert Linked([e2]) && RootsListed([e2], [1]);
    CollectsWholeLinkedForest([e2], [1]);
    assert Preorder([e3]) == [e3.info];
    assert Preorder([e2]) == [e2.info, e3.info];
    assert Admit([1], e1.info) == [1];
  }

  /** Children are walked even when their parent was not pushed: a department
      below an unmatched one is still collected when its own parent id is in
      the list. */
  lemma UnmatchedParentStillWalked()
    ensures var inner := Dept(Info(Entity(2, 5, "")), []);
            var outer := Dept(Info(Entity(1, 9, "")), [inner]);
            CollectedIds([outer], [5]) == [5, 2]
  {
    var inner := Dept(Info(Entity(2, 5, "")), []);
    var outer := Dept(Info(Entity(1, 9, "")), [inner]);
    assert [inner][1..] == [] && [outer][1..] == [];
    assert Admit([5], outer.info) == [5];
    assert CollectedIds([inner], [5]) == [5, 2];
  }

  /** The `Vec<i32>` that `get_children_ids` grows in place. */
  class IdVec {
    var elems: seq<i32>

    constructor (init: seq<i32>)
      ensures elems == init
    {
      elems := init;
    }

    /** `Vec::push` */
    method Push(x: i32)
      modifies this
      ensures elems == old(elems) + [x]
    {
      elems := elems + [x];
    }
  }

  /** `get_children_ids`: walks `tree`, pushing a department's id onto
      `parentDeptIds` whenever its parent id is already there, descending into
      every non-empty child list; returns the same vector. */
  method GetChildrenIds(tree: seq<Dept>, parentDeptIds: IdVec) returns (r: IdVec)
    modifies parentDeptIds
    ensures r == parentDeptIds
    ensures r.elems == CollectedIds(tree, old(parentDeptIds.elems))
    decreases tree
  {
    ghost var start := parentDeptIds.elems;
    for i := 0 to |tree|
      invariant CollectedIds(tree[i..], parentDeptIds.elems) == CollectedIds(tree, start)
    {
      var dept := tree[i];
      assert tree[i..][0] == dept && tree[i..][1..] == tree[i + 1..];
      if dept.info.GetParentId() in parentDeptIds.elems {
        parentDeptIds.Push(dept.info.GetId());
      }
      if dept.children != [] {
        var same := GetChildrenIds(dept.children, parentDeptIds);
      }
    }
    r := parentDeptIds;
  }

  /** `get_dept_children_ids` once the department forest is built (`infos`):
      the walk is seeded with the requested id, which therefore comes first. */
  method GetDeptChildrenIds(infos: seq<Dept>, parentDeptId: i32) returns (ids: seq<i32>)
    ensures ids == CollectedIds(infos, [parentDeptId])
    ensures |ids| >= 1 && ids[0] == parentDeptId
  {
    var parentDeptIds := new IdVec([parentDeptId]);
    var result := GetChildrenIds(infos, parentDeptIds);
    ids := result.elems;
    CollectedIdsGrowth(infos, [parentDeptId]);
  }

  // ---------------------------------------------------------------------------
  // get_children_dept
  // ---------------------------------------------------------------------------

  /** What one loop iteration pushes for `dept` before its recursive call:
      every department when unscoped, otherwise only a direct child of the
      scope id. */
  function Selected(dept: Info, deptId: Option<i32>): (r: seq<Info>)
    ensures r == [] || r == [dept]
    ensures r == [dept] <==> (deptId.None? || dept.GetParentId() == deptId.value)
  {
    match deptId
    case None => [dept]
    case Some(id) => if dept.GetParentId() == id then [dept] else []
  }

  /** The loop of `get_children_dept` over `depts`, where `rec(d)` is what the
      recursive call made for `d` returns, `None` standing for a call that
      never returns. For each department in order: push its selection, then
      extend by the recursive result. */
  function Level(depts: seq<Info>, deptId: Option<i32>, rec: Info -> Option<seq<Info>>): Option<seq<Info>>
    decreases |depts|
  {
    if depts == [] then Some([])
    else
      match Level(depts[..|depts| - 1], deptId, rec)
      case None => None
      case Some(acc) =>
        var dept := depts[|depts| - 1];
        match rec(dept)
        case None => None
        case Some(children) => Some(acc + Selected(dept, deptId) + children)
  }

  /** The recursive call of `get_children_dept` for a department: on the same
      full list, scoped to that department's id, with `fuel` calls left. */
  function Descend(depts: seq<Info>, fuel: nat): Info -> Option<seq<Info>>
    decreases fuel, 0
  {
    (dept: Info) => if fuel == 0 then None else ChildrenDept(depts, Some(dept.GetId()), fuel - 1)
  }

  /** `get_children_dept` with at most `fuel` nested calls: `None` when it has
      not returned within that depth. */
  function ChildrenDept(depts: seq<Info>, deptId: Option<i32>, fuel: nat): Option<seq<Info>>
    decreases fuel, 1
  {
    Level(depts, deptId, Descend(depts, fuel))
  }

  /** The department-wise reading of one level when every recursive call
      returns: each department's selection followed by its recursive result. */
  function Spliced(depts: seq<Info>, deptId: Option<i32>, rec: Info -> Option<seq<Info>>): seq<Info>
    requires forall i :: 0 <= i < |depts| ==> rec(depts[i]).Some?
  {
    if depts == [] then []
    else Selected(depts[0], deptId) + rec(depts[0]).value + Spliced(depts[1..], deptId, rec)
  }

  lemma {:induction false} SplicedSnoc(depts: seq<Info>, deptId: Option<i32>, rec: Info -> Option<seq<Info>>)
    requires depts != []
    requires forall i :: 0 <= i < |depts| ==> rec(depts[i]).Some?
    ensures var last := depts[|depts| - 1];
            Spliced(depts, deptId, rec)
            == Spliced(depts[..|depts| - 1], deptId, rec) + Selected(last, deptId) + rec(last).value
    decreases |depts|
  {
    var last := depts[|depts| - 1];
    var tail := Selected(last, deptId) + rec(last).value;
    if |depts| > 1 {
      var rest, init := depts[1..], depts[..|depts| - 1];
      var head := Selected(depts[0], deptId) + rec(depts[0]).value;
      assert rest[..|rest| - 1] == init[1..];
      assert init[0] == depts[0];
      SplicedSnoc(rest, deptId, rec);
      AppendAssoc(Spliced(init[1..], deptId, rec), Selected(last, deptId), rec(last).value);
      AppendAssoc(head, Spliced(init[1..], deptId, rec), tail);
      AppendAssoc(Spliced(init, deptId, rec), Selected(last, deptId), rec(last).value);
      calc {
        Spliced(depts, deptId, rec);
        head + Spliced(rest, deptId, rec);
        head + (Spliced(init[1..], deptId, rec) + tail);
        (head + Spliced(init[1..], deptId, rec)) + tail;
        Spliced(init, deptId, rec) + tail;
      }
    } else {
      assert depts[..0] == [] && depts[1..] == [];
    }
  }

  /** When every recursive call returns, the level returns each department's
      own push followed by that department's recursive results, in input order. */
  lemma {:induction false} LevelReturns(depts: seq<Info>, deptId: Option<i32>, rec: Info -> Option<seq<Info>>)
    requires forall i :: 0 <= i < |depts| ==> rec(depts[i]).Some?
    ensures Level(depts, deptId, rec) == Some(Spliced(depts, deptId, rec))
    decreases |depts|
  {
    if depts != [] {
      LevelReturns(depts[..|depts| - 1], deptId, rec);
      SplicedSnoc(depts, deptId, rec);
    }
  }

  /** Once one recursive call does not return, neither does the level. */
  lemma {:induction false} LevelDiverges(depts: seq<Info>, deptId: Option<i32>, rec: Info -> Option<seq<Info>>, k: nat)
    requires k < |depts| && rec(depts[k]).None?
    ensures Level(depts, deptId, rec).None?
    decreases |depts|
  {
    if k < |depts| - 1 {
      LevelDiverges(depts[..|depts| - 1], deptId, rec, k);
    }
  }

  /** The departments of `depts` whose parent id is `id`, in input order. */
  function WithParent(depts: seq<Info>, id: i32): seq<Info>
  {
    if depts == [] then []
    else (if depts[0].GetParentId() == id then [depts[0]] else []) + WithParent(depts[1..], id)
  }

  lemma {:induction false} SplicedOfLeaves(depts: seq<Info>, deptId: Option<i32>, rec: Info -> Option<seq<Info>>)
    requires forall i :: 0 <= i < |depts| ==> rec(depts[i]) == Some([])
    ensures deptId.None? ==> Spliced(depts, deptId, rec) == depts
    ensures deptId.Some? ==> Spliced(depts, deptId, rec) == WithParent(depts, deptId.value)
  {
    if depts != [] {
      SplicedOfLeaves(depts[1..], deptId, rec);
    }
  }

  /** One level's own selection is fixed: with all recursive results empty,
      an unscoped call returns every department in input order and a scoped
      one exactly the departments whose parent id is the scope id. */
  lemma LevelSelection(depts: seq<Info>, deptId: Option<i32>, rec: Info -> Option<seq<Info>>)
    requires forall i :: 0 <= i < |depts| ==> rec(depts[i]) == Some([])
    ensures deptId.None? ==> Level(depts, deptId, rec) == Some(depts)
    ensures deptId.Some? ==> Level(depts, deptId, rec) == Some(WithParent(depts, deptId.value))
  {
    LevelReturns(depts, deptId, rec);
    SplicedOfLeaves(depts, deptId, rec);
  }

  /** On an empty list the call returns the empty list at once. */
  lemma EmptyReturnsEmpty(deptId: Option<i32>, fuel: nat)
    ensures ChildrenDept([], deptId, fuel) == Some([])
  {
  }

  /** On any non-empty list the call never returns: its first department's
      recursive call has the same list, so however deep the allowed nesting,
      it is exhausted. */
  lemma {:induction false} NonEmptyNeverReturns(depts: seq<Info>, deptId: Option<i32>, fuel: nat)
    requires depts != []
    ensures ChildrenDept(depts, deptId, fuel) == None
    decreases fuel
  {
    if fuel > 0 {
      NonEmptyNeverReturns(depts, Some(depts[0].GetId()), fuel - 1);
    }
    LevelDiverges(depts, deptId, Descend(depts, fuel), 0);
  }

  /** `get_children_dept` with at most `fuel` nested calls: returns `None` as
      soon as a call would go deeper. */
  method GetChildrenDept(depts: seq<Info>, deptId: Option<i32>, fuel: nat) returns (r: Option<seq<Info>>)
    ensures r == ChildrenDept(depts, deptId, fuel)
    decreases fuel
  {
    ghost var rec := Descend(depts, fuel);
    var newDepts: seq<Info> := [];
    for i := 0 to |depts|
      invariant Level(depts[..i], deptId, rec) == Some(newDepts)
    {
      var dept := depts[i];
      assert depts[..i + 1][..i] == depts[..i];
      ghost var before := newDepts;
      match deptId {
        case Some(id) =>
          if dept.GetParentId() == id {
            newDepts := newDepts + [dept];
          }
        case None =>
          newDepts := newDepts + [dept];
      }
      assert newDepts == before + Selected(dept, deptId);
      if fuel == 0 {
        LevelDiverges(depts, deptId, rec, i);
        return None;
      }
      var children := GetChildrenDept(depts, Some(dept.GetId()), fuel - 1);
      assert rec(dept) == children;
      if children.None? {
        LevelDiverges(depts, deptId, rec, i);
        return None;
      }
      newDepts := newDepts + children.value;
    }
    assert depts[..|depts|] == depts;
    r := Some(newDepts);
  }
}
