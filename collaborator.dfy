/** Saving the whole list of collaborators at once
    (src/controllers/Collaborator.controller.ts, `update`): the submitted
    list replaces the table. Rows whose id is not submitted are deleted
    first; then each submitted item either rewrites the row with its id or,
    when it carries no id, becomes a new row. */
module CollaboratorController {
  import opened Api
  import opened Store

  /** One element of the body's `collaborators` array, before the schema. */
  datatype RawItem = RawItem(id: Json, name: Json, code: Json)

  /** `updateCollaboratorSchema`'s element: an optional string id, a string
      name and a number code. */
  predicate ValidItem(c: RawItem) {
    IsOptionalString(c.id) && IsString(c.name) && IsNumber(c.code)
  }

  /** `updateCollaboratorSchema`: an array whose every element is valid.
      `None` stands for a body field that is not an array at all. */
  predicate ValidList(collaborators: Option<seq<RawItem>>) {
    collaborators.Some? && forall i :: 0 <= i < |collaborators.value| ==> ValidItem(collaborators.value[i])
  }

  /** A submitted item once the schema has accepted it. */
  datatype Item = Item(id: Option<Id>, name: string, code: real)

  function Parse(c: RawItem): (item: Item)
    requires ValidItem(c)
    ensures item.id.Some? <==> c.id.JString?
    ensures item.id.Some? ==> item.id.value == c.id.str
    ensures item.name == c.name.str && item.code == c.code.num
  {
    Item(if c.id.JString? then Some(c.id.str) else None, c.name.str, c.code.num)
  }

  function ParseAll(raw: seq<RawItem>): (items: seq<Item>)
    requires forall i :: 0 <= i < |raw| ==> ValidItem(raw[i])
    ensures |items| == |raw|
    ensures forall i :: 0 <= i < |raw| ==> items[i] == Parse(raw[i])
  {
    seq(|raw|, i requires 0 <= i < |raw| => Parse(raw[i]))
  }

  /** The row an item describes. */
  function Record(c: Item): Collaborator {
    Collaborator(c.name, c.code)
  }

  /** Some item of the list carries id `k`. */
  ghost predicate Submits(items: seq<Item>, k: Id) {
    exists i :: 0 <= i < |items| && items[i].id == Some(k)
  }

  /** `collaborators.map((c) => c.id).filter((id) => id !== undefined)`:
      the ids the items carry, in order, the empty id included. */
  function KeepIds(items: seq<Item>): (ids: seq<Id>)
    ensures forall k :: k in ids <==> Submits(items, k)
  {
    if items == [] then []
    else
      var rest := KeepIds(items[1..]);
      assert forall k :: Submits(items[1..], k) ==> Submits(items, k) by {
        forall k | Submits(items[1..], k) ensures Submits(items, k) {
          var i :| 0 <= i < |items[1..]| && items[1..][i].id == Some(k);
          assert items[i + 1].id == Some(k);
        }
      }
      assert forall k :: Submits(items, k) && items[0].id != Some(k) ==> Submits(items[1..], k) by {
        forall k | Submits(items, k) && items[0].id != Some(k) ensures Submits(items[1..], k) {
          var i :| 0 <= i < |items| && items[i].id == Some(k);
          assert items[1..][i - 1].id == Some(k);
        }
      }
      if items[0].id.Some? then [items[0].id.value] + rest else rest
  }

  /** The positions of the items that carry no id or the empty one. */
  ghost function NoIdPositions(items: seq<Item>): set<int> {
    set j | 0 <= j < |items| && !Truthy(items[j].id)
  }

  /** Number of items that carry no id or the empty one: each of them
      becomes a new row. */
  function NoIdCount(items: seq<Item>): (n: nat)
    ensures n == |NoIdPositions(items)|
  {
    if items == [] then 0
    else
      var m := |items| - 1;
      var rest := NoIdCount(items[..m]);
      assert NoIdPositions(items[..m]) == set j | 0 <= j < m && !Truthy(items[j].id);
      if Truthy(items[m].id) then
        assert NoIdPositions(items) == NoIdPositions(items[..m]);
        rest
      else
        assert NoIdPositions(items) == NoIdPositions(items[..m]) + {m};
        rest + 1
  }

  /** The row that the updates of `items` leave on a stored row with id
      `k`: the name and code of the last item whose (non-empty) id is `k`,
      or nothing when no item names it. */
  function LastUpdate(items: seq<Item>, k: Id): (r: Option<Collaborator>)
    ensures r.None? <==> (k == "" || forall i :: 0 <= i < |items| ==> items[i].id != Some(k))
    ensures r.Some? ==> exists i :: && 0 <= i < |items| && items[i].id == Some(k) && r.value == Record(items[i])
                                    && forall j :: i < j < |items| ==> items[j].id != Some(k)
  {
    if items == [] || k == "" then None
    else
      var last := items[|items| - 1];
      if last.id == Some(k) then Some(Record(last))
      else LastUpdate(items[..|items| - 1], k)
  }

  /** What the destroy leaves: the stored rows whose id is in `keep`. */
  function Kept(before: map<Id, Collaborator>, keep: seq<Id>): (kept: map<Id, Collaborator>)
    ensures forall k :: k in kept <==> k in before && k in keep
    ensures forall k :: k in kept ==> kept[k] == before[k]
  {
    map k | k in before && k in keep :: before[k]
  }

  /** The table after the per-item writes, starting from `start`: item by
      item, an item with a non-empty id rewrites the row with that id (if
      any), any other item adds its row under the id `created` gives it. */
  function ApplyItems(start: map<Id, Collaborator>, items: seq<Item>, created: seq<Option<Id>>): map<Id, Collaborator>
    requires |created| == |items|
  {
    if items == [] then start
    else
      var n := |items| - 1;
      var t := ApplyItems(start, items[..n], created[..n]);
      var c := items[n];
      if Truthy(c.id) then UpdateById(t, c.id.value, (_: Collaborator) => Record(c))
      else if created[n].Some? then t[created[n].value := Record(c)]
      else t
  }

  /** `created` gives a row id to exactly the items without a non-empty
      id; those ids are pairwise distinct and avoid `avoid`. */
  ghost predicate CreatedFor(items: seq<Item>, created: seq<Option<Id>>, avoid: set<Id>) {
    && |created| == |items|
    && (forall j :: 0 <= j < |items| ==> (created[j].Some? <==> !Truthy(items[j].id)))
    && (forall j :: 0 <= j < |items| && created[j].Some? ==> created[j].value !in avoid)
    && (forall j1, j2 :: 0 <= j1 < j2 < |items| && created[j1].Some? ==> created[j1] != created[j2])
  }

  /** Every id the items submit is in `ids`. */
  ghost predicate SubmittedWithin(items: seq<Item>, ids: set<Id>) {
    forall j :: 0 <= j < |items| && items[j].id.Some? ==> items[j].id.value in ids
  }

  /** What the per-item writes do to a table `start`: the created rows are
      added and nothing else, each row of `start` ends with the last update
      naming it or as it was, and each created row holds its item. */
  ghost predicate Applied(start: map<Id, Collaborator>, after: map<Id, Collaborator>,
                          items: seq<Item>, created: seq<Option<Id>>)
    requires |created| == |items|
  {
    && (forall k :: k in after <==> k in start || Some(k) in created)
    && (forall k :: k in start ==> after[k] == LastUpdate(items, k).GetOr(start[k]))
    && (forall j :: 0 <= j < |items| && created[j].Some? ==> after[created[j].value] == Record(items[j]))
  }

  /** When the created ids avoid the rows of `start` and every submitted
      id, the per-item writes do what `Applied` describes. */
  lemma ApplyItemsApplied(start: map<Id, Collaborator>, items: seq<Item>,
                          created: seq<Option<Id>>, avoid: set<Id>)
    requires CreatedFor(items, created, avoid)
    requires start.Keys <= avoid && SubmittedWithin(items, avoid)
    ensures Applied(start, ApplyItems(start, items, created), items, created)
  {
    AppliedKeys(start, items, created);
    AppliedStored(start, items, created);
    AppliedCreated(start, items, created, avoid);
  }

  /** The writes add exactly the created rows to the table. */
  lemma {:induction false} AppliedKeys(start: map<Id, Collaborator>, items: seq<Item>, created: seq<Option<Id>>)
    requires |created| == |items|
    requires forall j :: 0 <= j < |items| ==> (created[j].Some? <==> !Truthy(items[j].id))
    ensures forall k :: k in ApplyItems(start, items, created) <==> k in start || Some(k) in created
    decreases |items|
  {
    if items != [] {
      var n := |items| - 1;
      AppliedKeys(start, items[..n], created[..n]);
      assert created == created[..n] + [created[n]];
    }
  }

  /** A row of `start` ends with the last update naming it, or as it was,
      when no created id collides with it. */
  lemma {:induction false} AppliedStored(start: map<Id, Collaborator>, items: seq<Item>, created: seq<Option<Id>>)
    requires |created| == |items|
    requires forall j :: 0 <= j < |items| && created[j].Some? ==> created[j].value !in start
    ensures forall k :: k in start ==>
              k in ApplyItems(start, items, created)
              && ApplyItems(start, items, created)[k] == LastUpdate(items, k).GetOr(start[k])
    decreases |items|
  {
    if items != [] {
      var n := |items| - 1;
      var c := items[n];
      AppliedStored(start, items[..n], created[..n]);
      assert items[..n] == items[..|items| - 1];
      forall k | k in start
        ensures LastUpdate(items, k) == if k != "" && c.id == Some(k) then Some(Record(c)) else LastUpdate(items[..n], k)
      {
      }
    }
  }

  /** Each created row holds its item, when the created ids are distinct
      and no update names one of them. */
  lemma {:induction false} AppliedCreated(start: map<Id, Collaborator>, items: seq<Item>,
                                          created: seq<Option<Id>>, avoid: set<Id>)
    requires CreatedFor(items, created, avoid) && SubmittedWithin(items, avoid)
    ensures forall j :: 0 <= j < |items| && created[j].Some? ==>
              created[j].value in ApplyItems(start, items, created)
              && ApplyItems(start, items, created)[created[j].value] == Record(items[j])
    decreases |items|
  {
    if items != [] {
      var n := |items| - 1;
      var c := items[n];
      assert CreatedFor(items[..n], created[..n], avoid);
      AppliedCreated(start, items[..n], created[..n], avoid);
      forall j | 0 <= j < n && created[j].Some? && Truthy(c.id)
        ensures created[j].value != c.id.value
      {
        assert c.id.value in avoid;
      }
    }
  }

  /** The table went from `before` to `after` by the reconciliation of
      `items`, where `created[j]` is the id of the row created for item
      `j`, if one was:
      - the rows left are the stored rows whose id is submitted, and the
        created ones;
      - a kept row carries the last update naming it, or stays as it was;
      - exactly the items without a (non-empty) id create a row, under a
        new id that no stored row and no submitted item has, each its own. */
  ghost predicate Reconciled(before: map<Id, Collaborator>, after: map<Id, Collaborator>,
                             items: seq<Item>, created: seq<Option<Id>>)
  {
    && |created| == |items|
    && (forall k :: k in after <==> (k in before && Submits(items, k)) || Some(k) in created)
    && (forall k :: k in before && Submits(items, k) ==> after[k] == LastUpdate(items, k).GetOr(before[k]))
    && (forall j :: 0 <= j < |items| ==> (created[j].Some? <==> !Truthy(items[j].id)))
    && (forall j :: 0 <= j < |items| && created[j].Some? ==>
          && created[j].value !in before && !Submits(items, created[j].value)
          && after[created[j].value] == Record(items[j]))
    && (forall j1, j2 :: 0 <= j1 < j2 < |items| && created[j1].Some? ==> created[j1] != created[j2])
  }

  /** The ids the items submit, as a set. */
  ghost function SubmittedIds(items: seq<Item>): (ids: set<Id>)
    ensures forall k :: k in ids <==> Submits(items, k)
  {
    set k | k in KeepIds(items)
  }

  /** Destroying the unsubmitted rows and then applying the items is the
      reconciliation `Reconciled` describes. */
  lemma DestroyThenApplyReconciles(before: map<Id, Collaborator>, items: seq<Item>, created: seq<Option<Id>>)
    requires CreatedFor(items, created, before.Keys + SubmittedIds(items))
    ensures Reconciled(before, ApplyItems(Kept(before, KeepIds(items)), items, created), items, created)
  {
    var avoid := before.Keys + SubmittedIds(items);
    var kept := Kept(before, KeepIds(items));
    forall j | 0 <= j < |items| && items[j].id.Some?
      ensures items[j].id.value in avoid
    {
      assert Submits(items, items[j].id.value);
    }
    ApplyItemsApplied(kept, items, created, avoid);
  }

  /** The ids of the rows the reconciliation created. */
  ghost function CreatedIds(created: seq<Option<Id>>): (ids: set<Id>)
    ensures forall k :: k in ids <==> Some(k) in created
  {
    set j | 0 <= j < |created| && created[j].Some? :: created[j].value
  }

  /** The ids created for a list are those created for all but its last
      item plus, if any, the one created for the last; that one is new
      when created ids are pairwise distinct. */
  lemma CreatedIdsStep(created: seq<Option<Id>>)
    requires created != []
    requires forall j1, j2 :: 0 <= j1 < j2 < |created| && created[j1].Some? ==> created[j1] != created[j2]
    ensures var m := |created| - 1;
            |CreatedIds(created)| == |CreatedIds(created[..m])| + if created[m].Some? then 1 else 0
  {
    var m := |created| - 1;
    var pre := created[..m];
    assert created == pre + [created[m]];
    assert forall k :: Some(k) in created <==> Some(k) in pre || created[m] == Some(k);
    if created[m].Some? {
      assert created[m] !in pre by {
        forall j | 0 <= j < m ensures pre[j] != created[m] {
          assert pre[j] == created[j];
        }
      }
      assert CreatedIds(created) == CreatedIds(pre) + {created[m].value};
    } else {
      assert CreatedIds(created) == CreatedIds(pre);
    }
  }


  /** One more item adds one to the count exactly when it has no
      non-empty id. */
  lemma NoIdCountStep(items: seq<Item>)
    requires items != []
    ensures NoIdCount(items) == NoIdCount(items[..|items| - 1]) + if Truthy(items[|items| - 1].id) then 0 else 1
  {
  }

  /** The ids created for a list, cut at `m`, are those created for its
      first `m` items. */
  lemma CreatedForPrefix(items: seq<Item>, created: seq<Option<Id>>, avoid: set<Id>, m: nat)
    requires CreatedFor(items, created, avoid) && m <= |items|
    ensures CreatedFor(items[..m], created[..m], avoid)
  {
    forall j | 0 <= j < m ensures items[..m][j] == items[j] && created[..m][j] == created[j] {}
  }

  /** As many rows are created as there are items without a non-empty id. */
  lemma {:induction false} CreatedCount(items: seq<Item>, created: seq<Option<Id>>, avoid: set<Id>)
    requires CreatedFor(items, created, avoid)
    ensures |CreatedIds(created)| == NoIdCount(items)
    decreases |items|
  {
    if items != [] {
      var m := |items| - 1;
      assert |CreatedIds(created[..m])| == NoIdCount(items[..m]) by {
        CreatedForPrefix(items, created, avoid, m);
        CreatedCount(items[..m], created[..m], avoid);
      }
      NoIdCountStep(items);
      assert created[m].Some? <==> !Truthy(items[m].id);
      CreatedIdsStep(created);
    }
  }

  /** With every item's fate fixed, the table ends with the stored rows
      whose id was submitted plus one new row per item without a
      non-empty id; a stored row whose id was not submitted is gone; a
      submitted id that names no stored row creates nothing. */
  lemma ReconciledSize(before: map<Id, Collaborator>, after: map<Id, Collaborator>,
                       items: seq<Item>, created: seq<Option<Id>>)
    requires Reconciled(before, after, items, created)
    ensures |after.Keys| == |before.Keys * SubmittedIds(items)| + NoIdCount(items)
    ensures forall k :: k in before && !Submits(items, k) ==> k !in after
    ensures forall k :: k !in before && Submits(items, k) ==> k !in after
  {
    assert CreatedFor(items, created, before.Keys + SubmittedIds(items));
    CreatedCount(items, created, before.Keys + SubmittedIds(items));
    assert after.Keys == (before.Keys * SubmittedIds(items)) + CreatedIds(created);
    assert (before.Keys * SubmittedIds(items)) !! CreatedIds(created);
  }

  /** A stored row named by some item, and by no later one, ends with that
      item's name and code. */
  lemma SubmittedRowGetsItem(before: map<Id, Collaborator>, after: map<Id, Collaborator>,
                             items: seq<Item>, created: seq<Option<Id>>, i: nat)
    requires Reconciled(before, after, items, created)
    requires i < |items| && Truthy(items[i].id) && items[i].id.value in before
    requires forall j :: i < j < |items| ==> items[j].id != items[i].id
    ensures after[items[i].id.value] == Record(items[i])
  {
    var k := items[i].id.value;
    assert Submits(items, k);
    var r := LastUpdate(items, k);
    var i' :| 0 <= i' < |items| && items[i'].id == Some(k) && r.value == Record(items[i'])
              && forall j :: i' < j < |items| ==> items[j].id != Some(k);
    assert i' == i;
  }

  /** Rows created by the call are never deleted by it, and stored rows
      whose id is submitted survive it. */
  lemma CreatedRowsSurvive(before: map<Id, Collaborator>, after: map<Id, Collaborator>,
                           items: seq<Item>, created: seq<Option<Id>>)
    requires Reconciled(before, after, items, created)
    ensures forall j :: 0 <= j < |created| && created[j].Some? ==> created[j].value in after
    ensures forall k :: k in before && Submits(items, k) ==> k in after
  {
    forall j | 0 <= j < |created| && created[j].Some?
      ensures created[j].value in after
    {
      assert Some(created[j].value) in created;
    }
  }

  /** The database refuses the write of item `c` (`fits` says whether it
      takes a row: the name within its column, the code within INT): a
      create is always attempted, an update only when a stored row has
      the item's id, since created rows never take a submitted id. */
  predicate Refused(c: Item, stored: set<Id>, fits: Collaborator -> bool) {
    !fits(Record(c)) && (!Truthy(c.id) || c.id.value in stored)
  }

  /** Some write of the list is refused. */
  predicate AnyRefused(items: seq<Item>, stored: set<Id>, fits: Collaborator -> bool) {
    exists j :: 0 <= j < |items| && Refused(items[j], stored, fits)
  }

  /** The items whose write lands, in list order. */
  function Accepted(items: seq<Item>, stored: set<Id>, fits: Collaborator -> bool): (r: seq<Item>)
    ensures forall c :: c in r <==> c in items && !Refused(c, stored, fits)
    ensures !AnyRefused(items, stored, fits) ==> r == items
  {
    if items == [] then []
    else
      var rest := Accepted(items[1..], stored, fits);
      assert forall c :: c in items <==> c == items[0] || c in items[1..];
      assert !AnyRefused(items, stored, fits) ==> !AnyRefused(items[1..], stored, fits) by {
        if AnyRefused(items[1..], stored, fits) {
          var j :| 0 <= j < |items[1..]| && Refused(items[1..][j], stored, fits);
          assert Refused(items[j + 1], stored, fits);
        }
      }
      if Refused(items[0], stored, fits) then rest else [items[0]] + rest
  }

  /** After a refused write, the destroy has still happened: no stored row
      whose id was not submitted is left, and every row left is a stored
      row whose id was submitted or one created for a landed item. */
  lemma RefusalAfterDestroy(before: map<Id, Collaborator>, after: map<Id, Collaborator>, items: seq<Item>,
                            landed: seq<Item>, created: seq<Option<Id>>)
    requires CreatedFor(landed, created, before.Keys + SubmittedIds(items))
    requires Applied(Kept(before, KeepIds(items)), after, landed, created)
    ensures forall k :: k in before && !Submits(items, k) ==> k !in after
    ensures forall k :: k in after ==> (k in before && Submits(items, k)) || Some(k) in created
  {
  }

  /** `Collaborator.destroy({ where: { id: { [Op.notIn]: keep } } })`:
      only the rows whose id is in `keep` stay. */
  method DestroyNotIn(db: Db, keep: seq<Id>)
    requires db.Valid()
    modifies db`collaborators
    ensures db.Valid()
    ensures db.collaborators == Kept(old(db.collaborators), keep)
  {
    db.collaborators := map k | k in db.collaborators && k in keep :: db.collaborators[k];
  }

  /** `Collaborator.update(c, { where: { id: c.id } })` */
  method UpdateRow(db: Db, id: Id, row: Collaborator)
    requires db.Valid()
    modifies db`collaborators
    ensures db.Valid()
    ensures db.collaborators == UpdateById(old(db.collaborators), id, (_: Collaborator) => row)
  {
    db.collaborators := UpdateById(db.collaborators, id, (_: Collaborator) => row);
  }

  /** `Collaborator.create(c)`: the `beforeCreate` hook draws a uuid, which
      is taken to differ from every row the table holds or held when the
      call began and from every submitted id. */
  method CreateRow(db: Db, stored: set<Id>, submitted: seq<Id>, row: Collaborator) returns (id: Id)
    requires db.Valid()
    modifies db`collaborators
    ensures db.Valid()
    ensures id !in old(db.collaborators) && id !in stored && id !in submitted
    ensures db.collaborators == old(db.collaborators)[id := row]
  {
    FreshIdExists(db.collaborators.Keys + stored + set k | k in submitted);
    id :| id !in db.collaborators.Keys + stored + set k | k in submitted;
    db.collaborators := db.collaborators[id := row];
  }

  /** One more item keeps the created ids within the rules, when a new id
      is outside `avoid` and every id created so far. */
  lemma CreatedForStep(items: seq<Item>, i: nat, created: seq<Option<Id>>, avoid: set<Id>,
                       table: set<Id>, next: Option<Id>)
    requires i < |items| && CreatedFor(items[..i], created, avoid)
    requires forall j :: 0 <= j < i && created[j].Some? ==> created[j].value in table
    requires next.Some? <==> !Truthy(items[i].id)
    requires next.Some? ==> next.value !in avoid && next.value !in table
    ensures CreatedFor(items[..i + 1], created + [next], avoid)
  {
    assert items[..i + 1][..i] == items[..i];
  }

  /** The `Promise.all` over the items, one item after the other: an
      item with a non-empty id goes to `Collaborator.update`, any other to
      `Collaborator.create`, under an id outside `avoid`. */
  method WriteItems(db: Db, items: seq<Item>, stored: set<Id>, keep: seq<Id>) returns (ghost created: seq<Option<Id>>)
    requires db.Valid()
    modifies db`collaborators
    ensures db.Valid()
    ensures CreatedFor(items, created, stored + set k | k in keep)
    ensures db.collaborators == ApplyItems(old(db.collaborators), items, created)
  {
    ghost var avoid := stored + set k | k in keep;
    created := [];
    for i := 0 to |items|
      invariant db.Valid()
      invariant CreatedFor(items[..i], created, avoid)
      invariant forall j :: 0 <= j < i && created[j].Some? ==> created[j].value in db.collaborators
      invariant db.collaborators == ApplyItems(old(db.collaborators), items[..i], created)
    {
      var c := items[i];
      ghost var prev := created;
      assert items[..i + 1][..i] == items[..i];
      label step:
      ghost var next: Option<Id>;
      if Truthy(c.id) {
        UpdateRow(db, c.id.value, Record(c));
        next := None;
      } else {
        var id := CreateRow(db, stored, keep, Record(c));
        next := Some(id);
      }
      CreatedForStep(items, i, created, avoid, old@step(db.collaborators).Keys, next);
      created := created + [next];
      assert created[..i] == prev;
    }
    assert items[..|items|] == items;
  }

  /** `update`: check the schema; delete every row whose id is not among
      the submitted ones (`Op.notIn`, which with no submitted id at all
      puts no condition and deletes every row); then, item after item,
      rewrite the row with the item's id when it has a non-empty one, or
      create a row otherwise. A write the database refuses rejects the
      `Promise.all` and the answer is type 1; the destroy and the other
      writes have landed all the same. */
  method Update(db: Db, collaborators: Option<seq<RawItem>>, fits: Collaborator -> bool)
    returns (res: Response, ghost items: seq<Item>, ghost created: seq<Option<Id>>)
    requires db.Valid()
    modifies db`collaborators
    ensures db.Valid()
    ensures !ValidList(collaborators) ==> res == Rejected(Validation) && db.collaborators == old(db.collaborators)
    ensures ValidList(collaborators) ==> items == ParseAll(collaborators.value)
    ensures ValidList(collaborators) && !AnyRefused(items, old(db.collaborators).Keys, fits) ==>
      && res == Done
      && Reconciled(old(db.collaborators), db.collaborators, items, created)
    ensures ValidList(collaborators) && AnyRefused(items, old(db.collaborators).Keys, fits) ==>
      var landed := Accepted(items, old(db.collaborators).Keys, fits);
      && res == Crashed
      && CreatedFor(landed, created, old(db.collaborators).Keys + SubmittedIds(items))
      && Applied(Kept(old(db.collaborators), KeepIds(items)), db.collaborators, landed, created)
  {
    items, created := [], [];
    if !ValidList(collaborators) {
      return Rejected(Validation), items, created;
    }
    var parsed := ParseAll(collaborators.value);
    items := parsed;
    var stored := db.collaborators.Keys;
    var keep := KeepIds(parsed);
    var landed := Accepted(parsed, stored, fits);
    DestroyNotIn(db, keep);
    created := WriteItems(db, landed, stored, keep);
    assert (set k | k in keep) == SubmittedIds(items);
    if AnyRefused(parsed, stored, fits) {
      var avoid := stored + SubmittedIds(items);
      forall j | 0 <= j < |landed| && landed[j].id.Some?
        ensures landed[j].id.value in avoid
      {
        assert landed[j] in parsed;
        var i :| 0 <= i < |parsed| && parsed[i] == landed[j];
        assert Submits(items, landed[j].id.value);
      }
      ApplyItemsApplied(Kept(old(db.collaborators), keep), landed, created, avoid);
      return Crashed, items, created;
    }
    DestroyThenApplyReconciles(old(db.collaborators), items, created);
    res := Done;
  }
}
