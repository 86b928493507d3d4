/**
 * The category store write step: for one imported category row it computes the
 * stores the category is to be visible on, hands an update request to the
 * category subsystem and raises two publish events.
 *
 * The two database reads of the step are functions over a snapshot of the
 * `spy_category_node` and `spy_category_store` tables. PHP arrays of store ids
 * are value sequences (keys are not modelled).
 */
module CategoryStore {
  import opened Wrappers

  type StoreId = int

  /** A list of store ids (the `StoreRelationTransfer`). */
  datatype StoreRelation = StoreRelation(idStores: seq<StoreId>)

  /** The request handed to the category subsystem. */
  datatype UpdateCategoryStoreRelationRequest = UpdateCategoryStoreRelationRequest(
    idCategory: int,
    newStoreAssignment: StoreRelation,
    currentStoreAssignment: StoreRelation)

  datatype PublishEvent = PublishEvent(eventName: string, idEntity: int)

  /** The columns of one imported row that the step reads. */
  datatype CategoryStoreDataSet = CategoryStoreDataSet(
    idCategory: int,
    includedStoreIds: seq<StoreId>,
    excludedStoreIds: seq<StoreId>)

  /** A row of `spy_category_node`; `None` for a root node's parent. */
  datatype CategoryNodeRow = CategoryNodeRow(
    idCategoryNode: int,
    fkCategory: int,
    fkParentCategoryNode: Option<int>,
    isMain: bool)

  /** A row of `spy_category_store`. */
  datatype CategoryStoreRow = CategoryStoreRow(fkCategory: int, fkStore: StoreId)

  /** The persisted state the step reads, each table in its query order. */
  datatype Persistence = Persistence(
    categoryNodes: seq<CategoryNodeRow>,
    categoryStores: seq<CategoryStoreRow>)

  const EventCategoryStorePublish: string := "Category.category_store.publish"
  const EntityCategoryPublish: string := "Entity.spy_category.publish"

  predicate NoDuplicates(s: seq<StoreId>) {
    forall i, j :: 0 <= i < j < |s| ==> s[i] != s[j]
  }

  // ---------------------------------------------------------------------------
  // array_diff and the merge of the existing assignment
  // ---------------------------------------------------------------------------

  /**
   * PHP's `array_diff` on value lists: the elements of `a` that do not occur
   * in `b`, in the order of `a`, duplicates kept.
   */
  function ArrayDiff(a: seq<StoreId>, b: seq<StoreId>): (r: seq<StoreId>)
    ensures |r| <= |a|
    ensures forall x :: x in r <==> x in a && x !in b
  {
    if a == [] then []
    else (if a[0] in b then [] else [a[0]]) + ArrayDiff(a[1..], b)
  }

  /** Each id that is not removed keeps all its copies; a removed id keeps none. */
  lemma {:induction false} ArrayDiffCounts(a: seq<StoreId>, b: seq<StoreId>)
    ensures forall x :: multiset(ArrayDiff(a, b))[x] == if x in b then 0 else multiset(a)[x]
  {
    if a != [] {
      ArrayDiffCounts(a[1..], b);
      assert a == [a[0]] + a[1..];
    }
  }

  /** The first occurrence of each element of `s`, in the order of `s`. */
  function Unique(s: seq<StoreId>): (r: seq<StoreId>)
    ensures forall x :: x in r <==> x in s
    ensures NoDuplicates(r)
    decreases |s|
  {
    if s == [] then []
    else
      var rest := Unique(ArrayDiff(s[1..], [s[0]]));
      assert s[0] !in rest;
      [s[0]] + rest
  }

  /**
   * The foreach over the existing store ids, from list `acc` on: an id is
   * appended unless it is excluded or already in the list as it has grown.
   */
  function AppendSurviving(acc: seq<StoreId>, storeIdsToDelete: seq<StoreId>, existing: seq<StoreId>): seq<StoreId>
    decreases |existing|
  {
    if existing == [] then acc
    else
      var id := existing[0];
      var next := if id in storeIdsToDelete || id in acc then acc else acc + [id];
      AppendSurviving(next, storeIdsToDelete, existing[1..])
  }

  /** The new store assignment: `array_diff(add, delete)`, then the surviving existing ids. */
  function StoresToAssign(storeIdsToAdd: seq<StoreId>, storeIdsToDelete: seq<StoreId>, existing: seq<StoreId>): seq<StoreId>
  {
    AppendSurviving(ArrayDiff(storeIdsToAdd, storeIdsToDelete), storeIdsToDelete, existing)
  }

  /** `array_diff` is applied element by element, so it keeps the order of its input. */
  lemma {:induction false} ArrayDiffAppend(a1: seq<StoreId>, a2: seq<StoreId>, b: seq<StoreId>)
    ensures ArrayDiff(a1 + a2, b) == ArrayDiff(a1, b) + ArrayDiff(a2, b)
  {
    if a1 == [] {
      assert a1 + a2 == a2;
    } else {
      assert (a1 + a2)[1..] == a1[1..] + a2;
      ArrayDiffAppend(a1[1..], a2, b);
    }
  }

  /** Removing `x` from a difference is the difference with `x` added to the removed list. */
  lemma {:induction false} ArrayDiffExtend(s: seq<StoreId>, b: seq<StoreId>, x: StoreId)
    ensures ArrayDiff(ArrayDiff(s, b), [x]) == ArrayDiff(s, b + [x])
  {
    if s != [] {
      var head, rest := s[0], s[1..];
      ArrayDiffExtend(rest, b, x);
      var d := ArrayDiff(rest, b);
      if head in b {
        assert head in b + [x];
        assert ArrayDiff(s, b) == d;
        assert ArrayDiff(s, b + [x]) == ArrayDiff(rest, b + [x]);
      } else if head == x {
        assert head in b + [x];
        assert ArrayDiff(s, b) == [x] + d;
        assert ([x] + d)[1..] == d;
        assert ArrayDiff([x] + d, [x]) == ArrayDiff(d, [x]);
        assert ArrayDiff(s, b + [x]) == ArrayDiff(rest, b + [x]);
      } else {
        assert head !in b + [x];
        assert ArrayDiff(s, b) == [head] + d;
        assert ([head] + d)[1..] == d;
        assert ArrayDiff([head] + d, [x]) == [head] + ArrayDiff(d, [x]);
        assert ArrayDiff(s, b + [x]) == [head] + ArrayDiff(rest, b + [x]);
      }
    }
  }

  /** A list that shares nothing with `b` is left alone by `array_diff`. */
  lemma {:induction false} ArrayDiffDisjoint(s: seq<StoreId>, b: seq<StoreId>)
    requires forall x :: x in s ==> x !in b
    ensures ArrayDiff(s, b) == s
  {
    if s != [] {
      ArrayDiffDisjoint(s[1..], b);
      var head := s[0];
      assert head in s;
      assert head !in b;
      assert ArrayDiff(s, b) == [head] + ArrayDiff(s[1..], b);
      assert s == [s[0]] + s[1..];
    }
  }

  /**
   * `Unique` read from the back: appending an id appends it to the first
   * occurrences exactly when it is new, so `Unique(s)` holds the first
   * occurrence of each id, in the order of `s`.
   */
  lemma {:induction false} UniqueSnoc(s: seq<StoreId>, x: StoreId)
    ensures Unique(s + [x]) == Unique(s) + (if x in s then [] else [x])
    decreases |s|
  {
    if s == [] {
      assert [] + [x] == [x];
      assert ArrayDiff([x][1..], [x]) == [];
    } else {
      var head, tail := s[0], s[1..];
      assert (s + [x])[0] == head;
      assert (s + [x])[1..] == tail + [x];
      ArrayDiffAppend(tail, [x], [head]);
      var t := ArrayDiff(tail, [head]);
      assert Unique(s) == [head] + Unique(t);
      if x == head {
        assert ArrayDiff([x], [head]) == [];
        assert t + [] == t;
        assert x in s;
      } else {
        assert ArrayDiff([x], [head]) == [x];
        UniqueSnoc(t, x);
        assert (x in t) == (x in s);
      }
    }
  }

  /** A list without duplicates is its own list of first occurrences. */
  lemma {:induction false} UniqueOfNoDuplicates(s: seq<StoreId>)
    requires NoDuplicates(s)
    ensures Unique(s) == s
  {
    if s != [] {
      assert forall x :: x in s[1..] ==> x !in [s[0]];
      ArrayDiffDisjoint(s[1..], [s[0]]);
      UniqueOfNoDuplicates(s[1..]);
      assert s == [s[0]] + s[1..];
    }
  }

  /** `array_diff` of a duplicate-free list has no duplicates. */
  lemma {:induction false} ArrayDiffNoDuplicates(a: seq<StoreId>, b: seq<StoreId>)
    requires NoDuplicates(a)
    ensures NoDuplicates(ArrayDiff(a, b))
  {
    if a != [] {
      ArrayDiffNoDuplicates(a[1..], b);
      var d := ArrayDiff(a[1..], b);
      if a[0] !in b {
        assert a[0] !in a[1..];
        assert a[0] !in d;
        assert ArrayDiff(a, b) == [a[0]] + d;
      }
    }
  }

  lemma NoDuplicatesAppend(a: seq<StoreId>, b: seq<StoreId>)
    requires NoDuplicates(a) && NoDuplicates(b)
    requires forall x :: x in a ==> x !in b
    ensures NoDuplicates(a + b)
  {
    forall i, j | 0 <= i < j < |a + b|
      ensures (a + b)[i] != (a + b)[j]
    {
      if j < |a| {
      } else if i >= |a| {
        assert (a + b)[i] == b[i - |a|] && (a + b)[j] == b[j - |a|];
      } else {
        assert (a + b)[i] in a && (a + b)[j] in b;
      }
    }
  }

  /**
   * Reference form of the foreach: the list as it stands, followed by the first
   * occurrences of the existing ids that are neither excluded nor already in it.
   */
  lemma {:induction false} AppendSurvivingIsUniqueTail(acc: seq<StoreId>, storeIdsToDelete: seq<StoreId>, existing: seq<StoreId>)
    ensures AppendSurviving(acc, storeIdsToDelete, existing)
         == acc + Unique(ArrayDiff(existing, storeIdsToDelete + acc))
    decreases |existing|
  {
    var del := storeIdsToDelete;
    if existing != [] {
      var id := existing[0];
      var rest := existing[1..];
      if id in del || id in acc {
        assert id in del + acc;
        assert ArrayDiff(existing, del + acc) == ArrayDiff(rest, del + acc);
        AppendSurvivingIsUniqueTail(acc, del, rest);
      } else {
        var d := ArrayDiff(rest, del + acc);
        assert ArrayDiff(existing, del + acc) == [id] + d;
        assert ([id] + d)[1..] == d;
        AppendSurvivingIsUniqueTail(acc + [id], del, rest);
        ArrayDiffExtend(rest, del + acc, id);
        assert del + acc + [id] == del + (acc + [id]);
      }
    }
  }

  /**
   * The new assignment is the include list minus the excludes, in include order
   * and with its duplicates, followed by each existing id that is neither
   * excluded nor included, once, in the order of the existing list.
   */
  lemma StoresToAssignShape(storeIdsToAdd: seq<StoreId>, storeIdsToDelete: seq<StoreId>, existing: seq<StoreId>)
    ensures var kept := ArrayDiff(storeIdsToAdd, storeIdsToDelete);
            StoresToAssign(storeIdsToAdd, storeIdsToDelete, existing)
            == kept + Unique(ArrayDiff(existing, storeIdsToDelete + kept))
  {
    AppendSurvivingIsUniqueTail(ArrayDiff(storeIdsToAdd, storeIdsToDelete), storeIdsToDelete, existing);
  }

  /**
   * Excludes win, included and existing ids not excluded are all assigned, and
   * nothing comes from outside the include and existing lists.
   */
  lemma StoresToAssignMembership(storeIdsToAdd: seq<StoreId>, storeIdsToDelete: seq<StoreId>, existing: seq<StoreId>)
    ensures forall id :: id in StoresToAssign(storeIdsToAdd, storeIdsToDelete, existing)
                     <==> (id in storeIdsToAdd || id in existing) && id !in storeIdsToDelete
  {
    StoresToAssignShape(storeIdsToAdd, storeIdsToDelete, existing);
  }

  /** Every copy of a non-excluded include id survives: `array_diff` keeps duplicates. */
  lemma StoresToAssignKeepsIncludedCopies(storeIdsToAdd: seq<StoreId>, storeIdsToDelete: seq<StoreId>, existing: seq<StoreId>)
    ensures forall id :: id !in storeIdsToDelete ==>
              multiset(StoresToAssign(storeIdsToAdd, storeIdsToDelete, existing))[id] >= multiset(storeIdsToAdd)[id]
  {
    StoresToAssignShape(storeIdsToAdd, storeIdsToDelete, existing);
    ArrayDiffCounts(storeIdsToAdd, storeIdsToDelete);
  }

  /** Only the existing-id loop removes duplicates: a duplicate-free include list gives a duplicate-free result. */
  lemma StoresToAssignNoDuplicates(storeIdsToAdd: seq<StoreId>, storeIdsToDelete: seq<StoreId>, existing: seq<StoreId>)
    requires NoDuplicates(storeIdsToAdd)
    ensures NoDuplicates(StoresToAssign(storeIdsToAdd, storeIdsToDelete, existing))
  {
    var kept := ArrayDiff(storeIdsToAdd, storeIdsToDelete);
    StoresToAssignShape(storeIdsToAdd, storeIdsToDelete, existing);
    ArrayDiffNoDuplicates(storeIdsToAdd, storeIdsToDelete);
    NoDuplicatesAppend(kept, Unique(ArrayDiff(existing, storeIdsToDelete + kept)));
  }

  /**
   * Once the new assignment is persisted, running the merge again with the same
   * include and exclude lists gives the same assignment.
   */
  lemma StoresToAssignIdempotent(storeIdsToAdd: seq<StoreId>, storeIdsToDelete: seq<StoreId>, existing: seq<StoreId>)
    ensures var merged := StoresToAssign(storeIdsToAdd, storeIdsToDelete, existing);
            StoresToAssign(storeIdsToAdd, storeIdsToDelete, merged) == merged
  {
    var del := storeIdsToDelete;
    var kept := ArrayDiff(storeIdsToAdd, del);
    var tail := Unique(ArrayDiff(existing, del + kept));
    StoresToAssignShape(storeIdsToAdd, del, existing);
    StoresToAssignShape(storeIdsToAdd, del, kept + tail);
    ArrayDiffAppend(kept, tail, del + kept);
    ArrayDiffEmpty(kept, del + kept);
    assert forall x :: x in tail ==> x !in del + kept;
    ArrayDiffDisjoint(tail, del + kept);
    UniqueOfNoDuplicates(tail);
    assert [] + tail == tail;
  }

  /** A list all of whose elements are removed becomes empty. */
  lemma {:induction false} ArrayDiffEmpty(s: seq<StoreId>, b: seq<StoreId>)
    requires forall x :: x in s ==> x in b
    ensures ArrayDiff(s, b) == []
  {
    if s != [] {
      ArrayDiffEmpty(s[1..], b);
      var head := s[0];
      assert head in s;
      assert head in b;
    }
  }

  // ---------------------------------------------------------------------------
  // The two database reads
  // ---------------------------------------------------------------------------

  /** `spy_category_store.fk_store` of the rows of category `idCategory`, in row order. */
  function StoreIdsOfCategory(rows: seq<CategoryStoreRow>, idCategory: int): (r: seq<StoreId>)
    ensures forall s :: s in r <==> CategoryStoreRow(idCategory, s) in rows
  {
    if rows == [] then []
    else (if rows[0].fkCategory == idCategory then [rows[0].fkStore] else [])
         + StoreIdsOfCategory(rows[1..], idCategory)
  }

  /** The current assignment of `idCategory`, as the step reads it before merging. */
  function ExistingCategoryStoreRelations(db: Persistence, idCategory: int): (r: StoreRelation)
    ensures forall s :: s in r.idStores <==> CategoryStoreRow(idCategory, s) in db.categoryStores
  {
    StoreRelation(StoreIdsOfCategory(db.categoryStores, idCategory))
  }

  predicate IsMainNodeOf(node: CategoryNodeRow, idCategory: int) {
    node.fkCategory == idCategory && node.isMain
  }

  /**
   * The parent node column of the first main node of `idCategory`: `None` when
   * the category has no main node or its main node is a root.
   */
  function MainNodeParent(nodes: seq<CategoryNodeRow>, idCategory: int): (r: Option<int>)
    ensures NoMainNodeBefore(nodes, idCategory, |nodes|) ==> r == None
    ensures forall i :: 0 <= i < |nodes| && IsMainNodeOf(nodes[i], idCategory)
                        && NoMainNodeBefore(nodes, idCategory, i)
                        ==> r == nodes[i].fkParentCategoryNode
  {
    if nodes == [] then None
    else if IsMainNodeOf(nodes[0], idCategory) then nodes[0].fkParentCategoryNode
    else
      var r := MainNodeParent(nodes[1..], idCategory);
      NoMainNodeBeforeTail(nodes, idCategory);
      r
  }

  /** No node before position `i` is a main node of `idCategory`. */
  predicate NoMainNodeBefore(nodes: seq<CategoryNodeRow>, idCategory: int, i: int)
    requires 0 <= i <= |nodes|
  {
    forall j :: 0 <= j < i ==> !IsMainNodeOf(nodes[j], idCategory)
  }

  /** Dropping a leading node that is not a main node shifts every position by one. */
  lemma NoMainNodeBeforeTail(nodes: seq<CategoryNodeRow>, idCategory: int)
    requires nodes != [] && !IsMainNodeOf(nodes[0], idCategory)
    ensures forall i :: 1 <= i <= |nodes| ==>
              NoMainNodeBefore(nodes, idCategory, i) == NoMainNodeBefore(nodes[1..], idCategory, i - 1)
    ensures forall i :: 1 <= i < |nodes| ==> nodes[1..][i - 1] == nodes[i]
  {
    forall i | 1 <= i <= |nodes|
      ensures NoMainNodeBefore(nodes, idCategory, i) == NoMainNodeBefore(nodes[1..], idCategory, i - 1)
    {
      if NoMainNodeBefore(nodes[1..], idCategory, i - 1) {
        forall j | 0 <= j < i
          ensures !IsMainNodeOf(nodes[j], idCategory)
        {
          if j > 0 {
            assert nodes[j] == nodes[1..][j - 1];
          }
        }
      }
    }
  }

  /** Whether category `idCategory` owns a node with id `idCategoryNode`. */
  predicate OwnsNode(nodes: seq<CategoryNodeRow>, idCategory: int, idCategoryNode: int) {
    exists n :: n in nodes && n.fkCategory == idCategory && n.idCategoryNode == idCategoryNode
  }

  /** The store rows joined with category and node, filtered to node `idCategoryNode`. */
  function StoreIdsOfNodeOwner(nodes: seq<CategoryNodeRow>, rows: seq<CategoryStoreRow>, idCategoryNode: int): (r: seq<StoreId>)
    ensures forall s :: s in r <==>
              exists row :: row in rows && row.fkStore == s && OwnsNode(nodes, row.fkCategory, idCategoryNode)
  {
    if rows == [] then []
    else
      var rest := StoreIdsOfNodeOwner(nodes, rows[1..], idCategoryNode);
      assert forall row :: row in rows <==> row == rows[0] || row in rows[1..];
      (if OwnsNode(nodes, rows[0].fkCategory, idCategoryNode) then [rows[0].fkStore] else []) + rest
  }

  /** The stores of the category owning the main node's parent; empty without such a parent. */
  function ParentCategoryStoreRelations(db: Persistence, idCategory: int): (r: seq<StoreId>)
    ensures MainNodeParent(db.categoryNodes, idCategory) == None ==> r == []
    ensures forall p :: MainNodeParent(db.categoryNodes, idCategory) == Some(p) ==>
              forall s :: s in r <==> exists row :: row in db.categoryStores && row.fkStore == s
                                                   && OwnsNode(db.categoryNodes, row.fkCategory, p)
  {
    match MainNodeParent(db.categoryNodes, idCategory)
    case None => []
    case Some(p) => StoreIdsOfNodeOwner(db.categoryNodes, db.categoryStores, p)
  }

  /** The include list, replaced by the parent's stores only when it is exactly empty. */
  function StoreIdsToAdd(dataSet: CategoryStoreDataSet, db: Persistence): seq<StoreId> {
    if dataSet.includedStoreIds == [] then ParentCategoryStoreRelations(db, dataSet.idCategory)
    else dataSet.includedStoreIds
  }

  /** The request the step hands to the category subsystem for `dataSet`. */
  function UpdateRequestFor(dataSet: CategoryStoreDataSet, db: Persistence): (r: UpdateCategoryStoreRelationRequest)
    ensures r.idCategory == dataSet.idCategory
    ensures r.currentStoreAssignment == ExistingCategoryStoreRelations(db, dataSet.idCategory)
    ensures forall s :: s in r.newStoreAssignment.idStores <==>
              && ((if dataSet.includedStoreIds == []
                   then s in ParentCategoryStoreRelations(db, dataSet.idCategory)
                   else s in dataSet.includedStoreIds)
                  || s in r.currentStoreAssignment.idStores)
              && s !in dataSet.excludedStoreIds
  {
    var toAdd := StoreIdsToAdd(dataSet, db);
    var existing := ExistingCategoryStoreRelations(db, dataSet.idCategory);
    StoresToAssignMembership(toAdd, dataSet.excludedStoreIds, existing.idStores);
    UpdateCategoryStoreRelationRequest(
      dataSet.idCategory,
      StoreRelation(StoresToAssign(toAdd, dataSet.excludedStoreIds, existing.idStores)),
      existing)
  }

  /**
   * With no include list and no parent to inherit from, the step only removes:
   * the new assignment is the distinct existing ids that are not excluded.
   */
  lemma NoInheritanceOnlyRemoves(dataSet: CategoryStoreDataSet, db: Persistence)
    requires dataSet.includedStoreIds == []
    requires MainNodeParent(db.categoryNodes, dataSet.idCategory) == None
    ensures var existing := StoreIdsOfCategory(db.categoryStores, dataSet.idCategory);
            UpdateRequestFor(dataSet, db).newStoreAssignment.idStores
            == Unique(ArrayDiff(existing, dataSet.excludedStoreIds))
  {
    var existing := StoreIdsOfCategory(db.categoryStores, dataSet.idCategory);
    assert StoreIdsToAdd(dataSet, db) == [];
    assert UpdateRequestFor(dataSet, db).newStoreAssignment.idStores
        == StoresToAssign([], dataSet.excludedStoreIds, existing);
    StoresToAssignShape([], dataSet.excludedStoreIds, existing);
    assert ArrayDiff([], dataSet.excludedStoreIds) == [];
    assert dataSet.excludedStoreIds + [] == dataSet.excludedStoreIds;
  }

  /** Existing 1, 2, 3 with include 3, 4 and exclude 2: the new assignment is 3, 4, 1. */
  lemma ExampleExcludeAndPreserve()
    ensures StoresToAssign([3, 4], [2], [1, 2, 3]) == [3, 4, 1]
  {
  }

  /** Both copies of an included id survive, and the existing copy is not appended again. */
  lemma ExampleIncludedDuplicatesKept()
    ensures StoresToAssign([7, 7], [], [7]) == [7, 7]
  {
  }

  /**
   * Category 10 has no include list; its main node's parent, node 200, belongs
   * to category 20, visible on stores 1 and 2: category 10 inherits 1 and 2.
   */
  lemma ExampleInheritance()
    ensures var db := Persistence(
              [CategoryNodeRow(100, 10, Some(200), true), CategoryNodeRow(200, 20, None, true)],
              [CategoryStoreRow(20, 1), CategoryStoreRow(20, 2)]);
            UpdateRequestFor(CategoryStoreDataSet(10, [], []), db).newStoreAssignment.idStores == [1, 2]
  {
  }

  /** A category without nodes, no include or exclude list, on store 5: it stays on store 5. */
  lemma ExampleNoParent()
    ensures UpdateRequestFor(CategoryStoreDataSet(5, [], []), Persistence([], [CategoryStoreRow(5, 5)]))
            == UpdateCategoryStoreRelationRequest(5, StoreRelation([5]), StoreRelation([5]))
  {
  }

  // ---------------------------------------------------------------------------
  // The step
  // ---------------------------------------------------------------------------

  class CategoryStoreWriteStep {
    /** The events raised so far, as the publish-aware parent step collects them. */
    var publishEvents: seq<PublishEvent>

    constructor ()
      ensures publishEvents == []
    {
      publishEvents := [];
    }

    method AddPublishEvents(eventName: string, idEntity: int)
      modifies this
      ensures publishEvents == old(publishEvents) + [PublishEvent(eventName, idEntity)]
    {
      publishEvents := publishEvents + [PublishEvent(eventName, idEntity)];
    }

    method Execute(dataSet: CategoryStoreDataSet, db: Persistence)
      returns (request: UpdateCategoryStoreRelationRequest)
      modifies this
      ensures request == UpdateRequestFor(dataSet, db)
      ensures publishEvents == old(publishEvents)
                               + [PublishEvent(EventCategoryStorePublish, dataSet.idCategory),
                                  PublishEvent(EntityCategoryPublish, dataSet.idCategory)]
    {
      var storeIdsToAdd := dataSet.includedStoreIds;
      var storeIdsToDelete := dataSet.excludedStoreIds;
      if storeIdsToAdd == [] {
        storeIdsToAdd := ParentCategoryStoreRelations(db, dataSet.idCategory);
      }
      var existing := ExistingCategoryStoreRelations(db, dataSet.idCategory);
      var newRelation := CreateStoreRelationTransferToAssign(storeIdsToAdd, storeIdsToDelete, existing);
      request := UpdateCategoryStoreRelationRequest(dataSet.idCategory, newRelation, existing);
      AddPublishEvents(EventCategoryStorePublish, dataSet.idCategory);
      AddPublishEvents(EntityCategoryPublish, dataSet.idCategory);
    }

    /** Starts from `array_diff(add, delete)` and appends each surviving existing id in turn. */
    method CreateStoreRelationTransferToAssign(
      storeIdsToAdd: seq<StoreId>,
      storeIdsToDelete: seq<StoreId>,
      existing: StoreRelation)
      returns (r: StoreRelation)
      ensures r.idStores == StoresToAssign(storeIdsToAdd, storeIdsToDelete, existing.idStores)
    {
      var ids := ArrayDiff(storeIdsToAdd, storeIdsToDelete);
      var existingIds := existing.idStores;
      for i := 0 to |existingIds|
        invariant AppendSurviving(ids, storeIdsToDelete, existingIds[i..])
                  == StoresToAssign(storeIdsToAdd, storeIdsToDelete, existingIds)
      {
        var idStore := existingIds[i];
        assert existingIds[i..][1..] == existingIds[i + 1..];
        if idStore in storeIdsToDelete || idStore in ids {
          continue;
        }
        ids := ids + [idStore];
      }
      r := StoreRelation(ids);
    }
  }
}
