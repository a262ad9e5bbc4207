/**
 * The category controller: list, create, rename and delete the caller's
 * categories. Every action runs for a signed-in caller, identified by its
 * user id, and only ever sees or touches that caller's rows.
 */
module Categories {
  import opened Base
  import opened Php
  import opened Entities
  import opened Storage

  /** What the client receives about a category: its id and name. */
  datatype CategoryView = CategoryView(id: nat, name: string)

  function ViewOf(c: Category): CategoryView {
    CategoryView(c.id, c.name)
  }

  /**
   * GET /api/categories (`findByUser($user)`): the caller's rows and no
   * other user's row. The response shows each row's id and name.
   */
  function List(categories: seq<Category>, caller: UserId): (r: seq<Category>)
    ensures |r| <= |categories|
    ensures forall c :: c in r <==> c in categories && c.owner == caller
  {
    if categories == [] then []
    else
      assert categories == [categories[0]] + categories[1..];
      (if categories[0].owner == caller then [categories[0]] else []) + List(categories[1..], caller)
  }

  /** Rows pairwise distinct in id, and in name among one owner's rows. */
  ghost predicate RowsDistinct(categories: seq<Category>) {
    forall i, j :: 0 <= i < j < |categories| ==>
      categories[i].id != categories[j].id &&
      (categories[i].owner == categories[j].owner ==> categories[i].name != categories[j].name)
  }

  lemma ValidRowsDistinct(categories: seq<Category>, nextId: nat, ids: set<UserId>)
    requires CategoriesOk(categories, nextId, ids)
    ensures RowsDistinct(categories)
  {
  }

  /** In a valid store the caller's list never shows one name, or one id, twice. */
  lemma ListNamesDistinct(categories: seq<Category>, nextId: nat, ids: set<UserId>, caller: UserId)
    requires CategoriesOk(categories, nextId, ids)
    ensures var r := List(categories, caller);
      forall a, b :: 0 <= a < b < |r| ==> r[a].name != r[b].name && r[a].id != r[b].id
  {
    ValidRowsDistinct(categories, nextId, ids);
    ListRowsDistinct(categories, caller);
  }

  /** The first row differs from every later row in id, and in name when they share an owner. */
  lemma HeadDiffers(categories: seq<Category>)
    requires RowsDistinct(categories) && categories != []
    ensures forall c :: c in categories[1..] ==>
      c.id != categories[0].id && (c.owner == categories[0].owner ==> c.name != categories[0].name)
  {
    forall c | c in categories[1..]
      ensures c.id != categories[0].id && (c.owner == categories[0].owner ==> c.name != categories[0].name)
    {
      var k :| 0 <= k < |categories[1..]| && categories[1..][k] == c;
      assert categories[k + 1] == c;
    }
  }

  lemma RowsDistinctTail(categories: seq<Category>)
    requires RowsDistinct(categories) && categories != []
    ensures RowsDistinct(categories[1..])
  {
    var tail := categories[1..];
    forall i, j | 0 <= i < j < |tail|
      ensures tail[i].id != tail[j].id && (tail[i].owner == tail[j].owner ==> tail[i].name != tail[j].name)
    {
      assert tail[i] == categories[i + 1] && tail[j] == categories[j + 1];
    }
  }

  lemma {:induction false} ListRowsDistinct(categories: seq<Category>, caller: UserId)
    requires RowsDistinct(categories)
    ensures RowsDistinct(List(categories, caller))
  {
    if categories != [] {
      var tail := categories[1..];
      var rest := List(tail, caller);
      RowsDistinctTail(categories);
      ListRowsDistinct(tail, caller);
      if categories[0].owner == caller {
        HeadDiffers(categories);
        ConsDistinct(categories[0], rest);
      }
    }
  }

  /** A row that differs from every row of a distinct list keeps it distinct when put in front. */
  lemma ConsDistinct(h: Category, rest: seq<Category>)
    requires RowsDistinct(rest)
    requires forall c :: c in rest ==> c.id != h.id && (c.owner == h.owner ==> c.name != h.name)
    ensures RowsDistinct([h] + rest)
  {
    var r := [h] + rest;
    forall a, b | 0 <= a < b < |r|
      ensures r[a].id != r[b].id && (r[a].owner == r[b].owner ==> r[a].name != r[b].name)
    {
      assert r[b] == rest[b - 1];
      if a > 0 {
        assert r[a] == rest[a - 1];
      }
    }
  }

  /**
   * In a valid store, a name a caller already uses is held by exactly one
   * category, so a category other than row `i` holds it exactly when the
   * first holder is not row `i`.
   */
  lemma NameHolderUnique(categories: seq<Category>, nextId: nat, ids: set<UserId>, i: nat, name: string)
    requires CategoriesOk(categories, nextId, ids) && i < |categories|
    ensures var found := FindCategoryByName(categories, categories[i].owner, name);
      (found.Some? && categories[found.value].id != categories[i].id) <==>
      exists j :: 0 <= j < |categories| && j != i && categories[j].owner == categories[i].owner &&
                  categories[j].name == name
  {
    var owner := categories[i].owner;
    var found := FindCategoryByName(categories, owner, name);
    if exists j :: 0 <= j < |categories| && j != i && categories[j].owner == owner && categories[j].name == name {
      var j :| 0 <= j < |categories| && j != i && categories[j].owner == owner && categories[j].name == name;
      assert categories[j] in categories;
      var k := found.value;
      if k != j {
        assert categories[k].name == categories[j].name;
      }
    }
  }

  /**
   * POST /api/categories. A missing name (absent, blank, or "0") is 400;
   * a trimmed name the caller already uses is 409; otherwise one category
   * named by the trimmed name is added for the caller and the answer is
   * 201 with its view. Only a 201 changes the table.
   */
  method Create(db: Store, caller: UserId, name: Option<string>)
    returns (status: int, created: Option<CategoryView>)
    requires db.Valid() && caller in UserIds(db.users)
    modifies db`categories, db`nextCategoryId
    ensures db.Valid()
    ensures status == HttpBadRequest <==> IsMissing(name)
    ensures status == HttpConflict <==>
      !IsMissing(name) && exists c :: c in old(db.categories) && c.owner == caller && c.name == Trim(name.value)
    ensures status in {HttpCreated, HttpBadRequest, HttpConflict}
    ensures status != HttpCreated ==>
      db.categories == old(db.categories) && db.nextCategoryId == old(db.nextCategoryId) && created.None?
    ensures status == HttpCreated ==>
      var c := Category(old(db.nextCategoryId), caller, Trim(name.value));
      && db.categories == old(db.categories) + [c]
      && db.nextCategoryId == old(db.nextCategoryId) + 1
      && created == Some(ViewOf(c))
  {
    if IsMissing(name) {
      return HttpBadRequest, None;
    }
    var trimmed := Trim(name.value);
    if FindCategoryByName(db.categories, caller, trimmed).Some? {
      return HttpConflict, None;
    }
    TrimIdempotent(name.value);
    var id := db.InsertCategory(caller, trimmed);
    status, created := HttpCreated, Some(CategoryView(id, trimmed));
  }

  /**
   * PUT /api/categories/{id}. A category the caller does not own (or that
   * does not exist) is 404, before the body is looked at; then a missing
   * name is 400; a trimmed name another category of the caller uses is
   * 409 (keeping its own name is allowed); otherwise that one category is
   * renamed and the answer is 200 with its view.
   */
  method Update(db: Store, caller: UserId, id: int, name: Option<string>)
    returns (status: int, updated: Option<CategoryView>)
    requires db.Valid()
    modifies db`categories
    ensures db.Valid()
    ensures status == HttpNotFound <==> forall c :: c in old(db.categories) ==> !(c.id == id && c.owner == caller)
    ensures status == HttpBadRequest <==> status != HttpNotFound && IsMissing(name)
    ensures status == HttpConflict <==>
      status != HttpNotFound && !IsMissing(name) &&
      exists c :: c in old(db.categories) && c.owner == caller && c.name == Trim(name.value) && c.id != id
    ensures status in {HttpOk, HttpNotFound, HttpBadRequest, HttpConflict}
    ensures status != HttpOk ==> db.categories == old(db.categories) && updated.None?
    ensures status == HttpOk ==>
      exists i :: 0 <= i < |old(db.categories)| && old(db.categories)[i].id == id && old(db.categories)[i].owner == caller &&
        db.categories == old(db.categories)[i := old(db.categories)[i].(name := Trim(name.value))] &&
        updated == Some(CategoryView(id as nat, Trim(name.value)))
  {
    var found := FindCategory(db.categories, id, caller);
    if found.None? {
      return HttpNotFound, None;
    }
    var i := found.value;
    if IsMissing(name) {
      return HttpBadRequest, None;
    }
    var trimmed := Trim(name.value);
    TrimIdempotent(name.value);
    status := Rename(db, i, trimmed);
    updated := if status == HttpOk then Some(CategoryView(id as nat, trimmed)) else None;
  }

  /**
   * The part of `update` after the lookup and the name check: 409 when
   * another category of the same owner (a different id) has the name,
   * otherwise row `i` takes the name and is saved.
   */
  method Rename(db: Store, i: nat, name: string) returns (status: int)
    requires db.Valid() && i < |db.categories| && IsStoredText(name)
    modifies db`categories
    ensures db.Valid()
    ensures status == HttpOk || status == HttpConflict
    ensures status == HttpConflict <==>
      exists c :: c in old(db.categories) && c.owner == old(db.categories)[i].owner && c.name == name &&
                  c.id != old(db.categories)[i].id
    ensures status == HttpConflict ==> db.categories == old(db.categories)
    ensures status == HttpOk ==> db.categories == old(db.categories)[i := old(db.categories)[i].(name := name)]
  {
    var row := db.categories[i];
    var existing := FindCategoryByName(db.categories, row.owner, name);
    NameHolderUnique(db.categories, db.nextCategoryId, UserIds(db.users), i, name);
    SameIdSameRow(db.categories, db.nextCategoryId, UserIds(db.users), i);
    if existing.Some? && db.categories[existing.value].id != row.id {
      return HttpConflict;
    }
    db.SaveCategoryName(i, name);
    status := HttpOk;
  }

  /**
   * In a valid store no other category of the owner holds row `i`'s
   * current name, so renaming a category to its own name never conflicts.
   */
  lemma OwnNameNoConflict(categories: seq<Category>, nextId: nat, ids: set<UserId>, i: nat)
    requires CategoriesOk(categories, nextId, ids) && i < |categories|
    ensures !exists c :: c in categories && c.owner == categories[i].owner && c.name == categories[i].name &&
                         c.id != categories[i].id
  {
    ValidRowsDistinct(categories, nextId, ids);
    forall c | c in categories && c.owner == categories[i].owner && c.name == categories[i].name
      ensures c.id == categories[i].id
    {
      var j :| 0 <= j < |categories| && categories[j] == c;
    }
  }

  /** In a valid store a category id names one row. */
  lemma SameIdSameRow(categories: seq<Category>, nextId: nat, ids: set<UserId>, i: nat)
    requires CategoriesOk(categories, nextId, ids) && i < |categories|
    ensures forall c :: c in categories && c.id == categories[i].id ==> c == categories[i]
  {
  }

  /**
   * DELETE /api/categories/{id}. A category the caller does not own is
   * 404 and nothing changes; otherwise exactly that row is removed and the
   * answer is 200. Notes that pointed at it are not touched.
   */
  method Delete(db: Store, caller: UserId, id: int) returns (status: int)
    requires db.Valid()
    modifies db`categories
    ensures db.Valid()
    ensures status == HttpOk || status == HttpNotFound
    ensures status == HttpNotFound <==> forall c :: c in old(db.categories) ==> !(c.id == id && c.owner == caller)
    ensures status == HttpNotFound ==> db.categories == old(db.categories)
    ensures status == HttpOk ==>
      exists i :: 0 <= i < |old(db.categories)| && old(db.categories)[i].id == id && old(db.categories)[i].owner == caller &&
        db.categories == RemoveAt(old(db.categories), i)
  {
    var found := FindCategory(db.categories, id, caller);
    if found.None? {
      return HttpNotFound;
    }
    db.RemoveCategory(found.value);
    status := HttpOk;
  }

  /** A category created for a caller shows up in that caller's list. */
  lemma CreatedIsListed(categories: seq<Category>, c: Category)
    ensures c in List(categories + [c], c.owner)
  {
    assert c in categories + [c];
  }

  /**
   * In a valid store, once row `i` is removed no category with its id is
   * left, so its owner's list no longer shows that id.
   */
  lemma DeletedIsNotListed(categories: seq<Category>, nextId: nat, ids: set<UserId>, i: nat)
    requires CategoriesOk(categories, nextId, ids) && i < |categories|
    ensures forall c :: c in List(RemoveAt(categories, i), categories[i].owner) ==> c.id != categories[i].id
  {
    ValidRowsDistinct(categories, nextId, ids);
    RemovedIdGone(categories, i);
  }

  lemma RemovedIdGone(categories: seq<Category>, i: nat)
    requires RowsDistinct(categories) && i < |categories|
    ensures forall c :: c in RemoveAt(categories, i) ==> c.id != categories[i].id
  {
    var after := RemoveAt(categories, i);
    forall c | c in after ensures c.id != categories[i].id {
      var j :| 0 <= j < |after| && after[j] == c;
      if j < i {
        assert after[j] == categories[j];
      } else {
        assert after[j] == categories[j + 1];
      }
    }
  }
}
