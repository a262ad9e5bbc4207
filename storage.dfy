/**
 * The relational store behind the three repositories, held in memory:
 * one table per entity (rows in insertion order), one auto-increment
 * counter per table, the request clock, and the log of confirmation
 * mails handed to the mail service. `Valid()` collects the invariants
 * every controller action keeps.
 */
module Storage {
  import opened Base
  import opened Php
  import opened Entities

  /** The path of the confirmation route (`/api` prefix + `/confirm/{token}`). */
  const ConfirmPath: string := "/api/confirm/"

  /**
   * One confirmation mail handed to the mail service: the recipient, and
   * the site root and token the confirmation link is generated from.
   */
  datatype Mail = Mail(recipient: UserId, baseUrl: string, token: string) {
    /** The absolute link the mail carries. */
    function Link(): string {
      baseUrl + ConfirmPath + token
    }
  }

  /** `findOneBy(['email' => $email])`: the first user with exactly this email. */
  function FindUserByEmail(users: seq<User>, email: string): (r: Option<nat>)
    ensures r.Some? ==> r.value < |users| && users[r.value].email == email
    ensures r.None? <==> forall u :: u in users ==> u.email != email
  {
    if users == [] then None
    else if users[0].email == email then Some(0)
    else match FindUserByEmail(users[1..], email)
      case None => None
      case Some(i) => Some(i + 1)
  }

  /** `findByConfirmationToken($token)`: the first user holding this pending token. */
  function FindUserByToken(users: seq<User>, token: string): (r: Option<nat>)
    ensures r.Some? ==> r.value < |users| && users[r.value].confirmationToken == Some(token)
    ensures r.None? <==> forall u :: u in users ==> u.confirmationToken != Some(token)
  {
    if users == [] then None
    else if users[0].confirmationToken == Some(token) then Some(0)
    else match FindUserByToken(users[1..], token)
      case None => None
      case Some(i) => Some(i + 1)
  }

  /** `findOneBy(['id' => $id, 'user' => $user])` on categories. */
  function FindCategory(categories: seq<Category>, id: int, owner: UserId): (r: Option<nat>)
    ensures r.Some? ==> r.value < |categories|
    ensures r.Some? ==> categories[r.value].id == id && categories[r.value].owner == owner
    ensures r.None? <==> forall c :: c in categories ==> !(c.id == id && c.owner == owner)
  {
    if categories == [] then None
    else if categories[0].id == id && categories[0].owner == owner then Some(0)
    else match FindCategory(categories[1..], id, owner)
      case None => None
      case Some(i) => Some(i + 1)
  }

  /** `findOneBy(['user' => $user, 'name' => $name])` on categories. */
  function FindCategoryByName(categories: seq<Category>, owner: UserId, name: string): (r: Option<nat>)
    ensures r.Some? ==> r.value < |categories|
    ensures r.Some? ==> categories[r.value].owner == owner && categories[r.value].name == name
    ensures r.None? <==> forall c :: c in categories ==> !(c.owner == owner && c.name == name)
  {
    if categories == [] then None
    else if categories[0].owner == owner && categories[0].name == name then Some(0)
    else match FindCategoryByName(categories[1..], owner, name)
      case None => None
      case Some(i) => Some(i + 1)
  }

  /** `findOneBy(['id' => $id, 'user' => $user])` on notes. */
  function FindNote(notes: seq<Note>, id: int, owner: UserId): (r: Option<nat>)
    ensures r.Some? ==> r.value < |notes|
    ensures r.Some? ==> notes[r.value].id == id && notes[r.value].owner == owner
    ensures r.None? <==> forall n :: n in notes ==> !(n.id == id && n.owner == owner)
  {
    if notes == [] then None
    else if notes[0].id == id && notes[0].owner == owner then Some(0)
    else match FindNote(notes[1..], id, owner)
      case None => None
      case Some(i) => Some(i + 1)
  }

  /** The sequence without its element at index `i` (`remove` of one row). */
  function RemoveAt<T>(s: seq<T>, i: nat): (r: seq<T>)
    requires i < |s|
    ensures |r| == |s| - 1
    ensures forall j :: 0 <= j < i ==> r[j] == s[j]
    ensures forall j :: i <= j < |r| ==> r[j] == s[j + 1]
  {
    s[..i] + s[i + 1..]
  }

  function UserIds(users: seq<User>): set<UserId> {
    set u | u in users :: u.id
  }

  /**
   * A name or text as the controllers store it: trimmed (so `Trim(s) == s`,
   * by `TrimFixedIff`) and not `empty`.
   */
  predicate IsStoredText(s: string) {
    IsTrimmed(s) && !IsEmpty(s)
  }

  /** The row after a successful confirmation: verified, and its token cleared. */
  function Confirmed(u: User): (v: User)
    ensures v.isVerified && v.confirmationToken.None?
    ensures v.id == u.id && v.email == u.email && v.password == u.password
  {
    u.(isVerified := true, confirmationToken := None)
  }

  /**
   * A user row: its id issued by the counter, its email within the column
   * width, and verified exactly when it holds no pending token.
   */
  ghost predicate UserRowOk(u: User, nextId: nat) {
    && 1 <= u.id < nextId
    && |u.email| <= MaxEmailLength
    && (u.isVerified <==> u.confirmationToken.None?)
  }

  /**
   * The user table: valid rows, distinct ids, unique emails (the unique
   * index on `email`), and no pending token held twice.
   */
  ghost predicate UsersOk(users: seq<User>, nextId: nat) {
    && 1 <= nextId
    && (forall i :: 0 <= i < |users| ==> UserRowOk(users[i], nextId))
    && (forall i, j :: 0 <= i < j < |users| ==> users[i].id != users[j].id)
    && (forall i, j :: 0 <= i < j < |users| ==> users[i].email != users[j].email)
    && (forall i, j :: 0 <= i < j < |users| && users[i].confirmationToken.Some? ==>
          users[i].confirmationToken != users[j].confirmationToken)
  }

  /** A category row: its id issued by the counter, its owner a stored user, its name stored trimmed. */
  ghost predicate CategoryRowOk(c: Category, nextId: nat, userIds: set<UserId>) {
    1 <= c.id < nextId && c.owner in userIds && IsStoredText(c.name)
  }

  /** The category table: valid rows, distinct ids, and (owner, name) unique. */
  ghost predicate CategoriesOk(categories: seq<Category>, nextId: nat, userIds: set<UserId>) {
    && 1 <= nextId
    && (forall i :: 0 <= i < |categories| ==> CategoryRowOk(categories[i], nextId, userIds))
    && (forall i, j :: 0 <= i < j < |categories| ==> categories[i].id != categories[j].id)
    && (forall i, j :: 0 <= i < j < |categories| && categories[i].owner == categories[j].owner ==>
          categories[i].name != categories[j].name)
  }

  /**
   * A note's link to a category: the id was issued by the category counter
   * and, while that category exists, it belongs to the note's owner.
   */
  ghost predicate LinkOk(category: Option<nat>, owner: UserId, categories: seq<Category>, nextCategoryId: nat) {
    category.Some? ==>
      && category.value < nextCategoryId
      && forall k :: 0 <= k < |categories| && categories[k].id == category.value ==> categories[k].owner == owner
  }

  /**
   * A note row: its id issued by the counter, its owner a stored user, its
   * category link valid, title and content stored trimmed, its status one
   * of `Statuses`, and createdAt <= updatedAt <= the clock.
   */
  ghost predicate NoteRowOk(n: Note, nextId: nat, userIds: set<UserId>,
                            categories: seq<Category>, nextCategoryId: nat, clock: nat) {
    && 1 <= n.id < nextId
    && n.owner in userIds
    && LinkOk(n.category, n.owner, categories, nextCategoryId)
    && IsStoredText(n.title) && IsStoredText(n.content)
    && IsStatus(n.status)
    && n.createdAt <= n.updatedAt <= clock
  }

  /** The note table: valid rows and distinct ids. */
  ghost predicate NotesOk(notes: seq<Note>, nextId: nat, userIds: set<UserId>,
                          categories: seq<Category>, nextCategoryId: nat, clock: nat) {
    && 1 <= nextId
    && (forall i :: 0 <= i < |notes| ==> NoteRowOk(notes[i], nextId, userIds, categories, nextCategoryId, clock))
    && (forall i, j :: 0 <= i < j < |notes| ==> notes[i].id != notes[j].id)
  }

  lemma UserIdsAppend(users: seq<User>, u: User)
    ensures UserIds(users + [u]) == UserIds(users) + {u.id}
  {
    assert forall v :: v in users + [u] <==> v in users || v == u;
  }

  lemma UserIdsConfirm(users: seq<User>, i: nat)
    requires i < |users|
    ensures UserIds(users[i := Confirmed(users[i])]) == UserIds(users)
  {
    var after := users[i := Confirmed(users[i])];
    forall x | x in UserIds(users) ensures x in UserIds(after) {
      var u :| u in users && u.id == x;
      var k :| 0 <= k < |users| && users[k] == u;
      assert after[k].id == x;
    }
    forall x | x in UserIds(after) ensures x in UserIds(users) {
      var u :| u in after && u.id == x;
      var k :| 0 <= k < |after| && after[k] == u;
      assert users[k].id == x;
    }
  }

  /** Adding an unverified user with a fresh id, an unused email and an unused token keeps the user table valid. */
  lemma UsersOkAppend(users: seq<User>, nextId: nat, u: User)
    requires UsersOk(users, nextId)
    requires u.id == nextId && |u.email| <= MaxEmailLength
    requires !u.isVerified && u.confirmationToken.Some?
    requires forall v :: v in users ==> v.email != u.email && v.confirmationToken != u.confirmationToken
    ensures UsersOk(users + [u], nextId + 1)
  {
    var after := users + [u];
    forall i | 0 <= i < |after| ensures UserRowOk(after[i], nextId + 1) {
      if i < |users| {
        assert after[i] == users[i];
      }
    }
    forall i, j | 0 <= i < j < |after| ensures after[i].id != after[j].id {
      if j == |users| {
        assert after[i] == users[i];
      }
    }
    forall i, j | 0 <= i < j < |after| ensures after[i].email != after[j].email {
      if j == |users| {
        assert after[i] in users;
      }
    }
    forall i, j | 0 <= i < j < |after| && after[i].confirmationToken.Some?
      ensures after[i].confirmationToken != after[j].confirmationToken
    {
      if j == |users| {
        assert after[i] in users;
      }
    }
  }

  /** Confirming one user keeps the user table valid. */
  lemma UsersOkConfirm(users: seq<User>, nextId: nat, i: nat)
    requires UsersOk(users, nextId) && i < |users|
    ensures UsersOk(users[i := Confirmed(users[i])], nextId)
  {
    var after := users[i := Confirmed(users[i])];
    forall j | 0 <= j < |after| ensures UserRowOk(after[j], nextId) {
      assert j != i ==> after[j] == users[j];
    }
  }

  /** More users never invalidate the category table. */
  lemma CategoriesOkMoreUsers(categories: seq<Category>, nextId: nat, ids: set<UserId>, more: set<UserId>)
    requires CategoriesOk(categories, nextId, ids) && ids <= more
    ensures CategoriesOk(categories, nextId, more)
  {
  }

  /** More users never invalidate the note table. */
  lemma NotesOkMoreUsers(notes: seq<Note>, nextId: nat, ids: set<UserId>, more: set<UserId>,
                         categories: seq<Category>, nextCategoryId: nat, clock: nat)
    requires NotesOk(notes, nextId, ids, categories, nextCategoryId, clock) && ids <= more
    ensures NotesOk(notes, nextId, more, categories, nextCategoryId, clock)
  {
    forall i | 0 <= i < |notes|
      ensures NoteRowOk(notes[i], nextId, more, categories, nextCategoryId, clock)
    {
      assert NoteRowOk(notes[i], nextId, ids, categories, nextCategoryId, clock);
    }
  }

  /** A category with a fresh id and a name its owner does not use yet keeps the category table valid. */
  lemma CategoriesOkAppend(categories: seq<Category>, nextId: nat, ids: set<UserId>, c: Category)
    requires CategoriesOk(categories, nextId, ids)
    requires c.id == nextId && c.owner in ids && IsStoredText(c.name)
    requires forall d :: d in categories ==> !(d.owner == c.owner && d.name == c.name)
    ensures CategoriesOk(categories + [c], nextId + 1, ids)
  {
    var after := categories + [c];
    forall i | 0 <= i < |after| ensures CategoryRowOk(after[i], nextId + 1, ids) {
      if i < |categories| {
        assert after[i] == categories[i];
      }
    }
    forall i, j | 0 <= i < j < |after| ensures after[i].id != after[j].id {
      if j == |categories| {
        assert after[i] == categories[i];
      }
    }
    forall i, j | 0 <= i < j < |after| && after[i].owner == after[j].owner
      ensures after[i].name != after[j].name
    {
      if j == |categories| {
        assert after[i] in categories;
      }
    }
  }

  /** Renaming a category to a name no other category of its owner has keeps the category table valid. */
  lemma CategoriesOkRename(categories: seq<Category>, nextId: nat, ids: set<UserId>, i: nat, name: string)
    requires CategoriesOk(categories, nextId, ids) && i < |categories| && IsStoredText(name)
    requires forall j :: 0 <= j < |categories| && j != i && categories[j].owner == categories[i].owner ==>
               categories[j].name != name
    ensures CategoriesOk(categories[i := categories[i].(name := name)], nextId, ids)
  {
    var after := categories[i := categories[i].(name := name)];
    forall j | 0 <= j < |after| ensures CategoryRowOk(after[j], nextId, ids) {
      assert j != i ==> after[j] == categories[j];
    }
  }

  /** Removing a category keeps the category table valid. */
  lemma CategoriesOkRemove(categories: seq<Category>, nextId: nat, ids: set<UserId>, i: nat)
    requires CategoriesOk(categories, nextId, ids) && i < |categories|
    ensures CategoriesOk(RemoveAt(categories, i), nextId, ids)
  {
    var after := RemoveAt(categories, i);
    forall a | 0 <= a < |after| ensures CategoryRowOk(after[a], nextId, ids) {
      assert after[a] == categories[if a < i then a else a + 1];
    }
    forall a, b | 0 <= a < b < |after| ensures after[a].id != after[b].id {
      assert after[a] == categories[if a < i then a else a + 1];
      assert after[b] == categories[if b < i then b else b + 1];
    }
    forall a, b | 0 <= a < b < |after| && after[a].owner == after[b].owner
      ensures after[a].name != after[b].name
    {
      assert after[a] == categories[if a < i then a else a + 1];
      assert after[b] == categories[if b < i then b else b + 1];
    }
  }

  /**
   * Notes keep valid links when the category table changes in any of the
   * three ways the controllers change it: a new category with a fresh id
   * (no note can point at an id not yet issued), a rename (id and owner
   * unchanged), or a removal (the note then points at no existing row).
   */
  lemma NotesOkCategoriesChange(notes: seq<Note>, nextId: nat, ids: set<UserId>,
                                categories: seq<Category>, nextCategoryId: nat,
                                after: seq<Category>, nextAfter: nat, clock: nat)
    requires NotesOk(notes, nextId, ids, categories, nextCategoryId, clock)
    requires nextCategoryId <= nextAfter
    requires forall k :: 0 <= k < |after| ==>
               after[k].id >= nextCategoryId ||
               exists m :: 0 <= m < |categories| && categories[m].id == after[k].id && categories[m].owner == after[k].owner
    ensures NotesOk(notes, nextId, ids, after, nextAfter, clock)
  {
    forall i | 0 <= i < |notes| ensures NoteRowOk(notes[i], nextId, ids, after, nextAfter, clock) {
      var n := notes[i];
      assert NoteRowOk(n, nextId, ids, categories, nextCategoryId, clock);
      if n.category.Some? {
        forall k | 0 <= k < |after| && after[k].id == n.category.value ensures after[k].owner == n.owner {
          var m :| 0 <= m < |categories| && categories[m].id == after[k].id && categories[m].owner == after[k].owner;
        }
      }
    }
  }

  /** A category with a fresh id leaves every note link valid. */
  lemma NotesOkNewCategory(notes: seq<Note>, nextId: nat, ids: set<UserId>,
                           categories: seq<Category>, nextCategoryId: nat, clock: nat, c: Category)
    requires NotesOk(notes, nextId, ids, categories, nextCategoryId, clock) && c.id == nextCategoryId
    ensures NotesOk(notes, nextId, ids, categories + [c], nextCategoryId + 1, clock)
  {
    var after := categories + [c];
    forall k | 0 <= k < |after|
      ensures after[k].id >= nextCategoryId ||
              exists m :: 0 <= m < |categories| && categories[m].id == after[k].id && categories[m].owner == after[k].owner
    {
      if k < |categories| {
        assert categories[k] == after[k];
      }
    }
    NotesOkCategoriesChange(notes, nextId, ids, categories, nextCategoryId, after, nextCategoryId + 1, clock);
  }

  /** A note with a fresh id, a valid row and the latest timestamp keeps the note table valid. */
  lemma NotesOkAppend(notes: seq<Note>, nextId: nat, ids: set<UserId>,
                      categories: seq<Category>, nextCategoryId: nat, clock: nat, n: Note)
    requires NotesOk(notes, nextId, ids, categories, nextCategoryId, clock)
    requires n.id == nextId && clock <= n.updatedAt
    requires NoteRowOk(n, nextId + 1, ids, categories, nextCategoryId, n.updatedAt)
    ensures NotesOk(notes + [n], nextId + 1, ids, categories, nextCategoryId, n.updatedAt)
  {
    var after := notes + [n];
    forall i | 0 <= i < |after| ensures NoteRowOk(after[i], nextId + 1, ids, categories, nextCategoryId, n.updatedAt) {
      if i < |notes| {
        assert after[i] == notes[i];
        assert NoteRowOk(notes[i], nextId, ids, categories, nextCategoryId, clock);
      }
    }
    forall i, j | 0 <= i < j < |after| ensures after[i].id != after[j].id {
      if j == |notes| {
        assert after[i] == notes[i];
        assert NoteRowOk(notes[i], nextId, ids, categories, nextCategoryId, clock);
      }
    }
  }

  /** Replacing a note by a valid row with the same id and the latest timestamp keeps the note table valid. */
  lemma NotesOkReplace(notes: seq<Note>, nextId: nat, ids: set<UserId>,
                       categories: seq<Category>, nextCategoryId: nat, clock: nat, i: nat, n: Note)
    requires NotesOk(notes, nextId, ids, categories, nextCategoryId, clock)
    requires i < |notes| && n.id == notes[i].id && clock <= n.updatedAt
    requires NoteRowOk(n, nextId, ids, categories, nextCategoryId, n.updatedAt)
    ensures NotesOk(notes[i := n], nextId, ids, categories, nextCategoryId, n.updatedAt)
  {
    var after := notes[i := n];
    forall j | 0 <= j < |after| ensures NoteRowOk(after[j], nextId, ids, categories, nextCategoryId, n.updatedAt) {
      if j != i {
        assert after[j] == notes[j];
        assert NoteRowOk(notes[j], nextId, ids, categories, nextCategoryId, clock);
      }
    }
  }

  /** Removing a note keeps the note table valid. */
  lemma NotesOkRemove(notes: seq<Note>, nextId: nat, ids: set<UserId>,
                      categories: seq<Category>, nextCategoryId: nat, clock: nat, i: nat)
    requires NotesOk(notes, nextId, ids, categories, nextCategoryId, clock) && i < |notes|
    ensures NotesOk(RemoveAt(notes, i), nextId, ids, categories, nextCategoryId, clock)
  {
    var after := RemoveAt(notes, i);
    forall a | 0 <= a < |after| ensures NoteRowOk(after[a], nextId, ids, categories, nextCategoryId, clock) {
      assert after[a] == notes[if a < i then a else a + 1];
    }
    forall a, b | 0 <= a < b < |after| ensures after[a].id != after[b].id {
      assert after[a] == notes[if a < i then a else a + 1];
      assert after[b] == notes[if b < i then b else b + 1];
    }
  }

  /** The three tables together, with the store's counters and clock. */
  ghost predicate TablesOk(users: seq<User>, nextUserId: nat, categories: seq<Category>, nextCategoryId: nat,
                           notes: seq<Note>, nextNoteId: nat, clock: nat) {
    && UsersOk(users, nextUserId)
    && CategoriesOk(categories, nextCategoryId, UserIds(users))
    && NotesOk(notes, nextNoteId, UserIds(users), categories, nextCategoryId, clock)
  }

  lemma AddUserKeepsTables(users: seq<User>, nextUserId: nat, categories: seq<Category>, nextCategoryId: nat,
                           notes: seq<Note>, nextNoteId: nat, clock: nat, row: User)
    requires TablesOk(users, nextUserId, categories, nextCategoryId, notes, nextNoteId, clock)
    requires row.id == nextUserId && |row.email| <= MaxEmailLength
    requires !row.isVerified && row.confirmationToken.Some?
    requires forall v :: v in users ==> v.email != row.email && v.confirmationToken != row.confirmationToken
    ensures TablesOk(users + [row], nextUserId + 1, categories, nextCategoryId, notes, nextNoteId, clock)
  {
    UsersOkAppend(users, nextUserId, row);
    UserIdsAppend(users, row);
    CategoriesOkMoreUsers(categories, nextCategoryId, UserIds(users), UserIds(users + [row]));
    NotesOkMoreUsers(notes, nextNoteId, UserIds(users), UserIds(users + [row]), categories, nextCategoryId, clock);
  }

  lemma ConfirmKeepsTables(users: seq<User>, nextUserId: nat, categories: seq<Category>, nextCategoryId: nat,
                           notes: seq<Note>, nextNoteId: nat, clock: nat, i: nat)
    requires TablesOk(users, nextUserId, categories, nextCategoryId, notes, nextNoteId, clock) && i < |users|
    ensures TablesOk(users[i := Confirmed(users[i])], nextUserId, categories, nextCategoryId, notes, nextNoteId, clock)
  {
    UsersOkConfirm(users, nextUserId, i);
    UserIdsConfirm(users, i);
  }

  lemma AddCategoryKeepsTables(users: seq<User>, nextUserId: nat, categories: seq<Category>, nextCategoryId: nat,
                               notes: seq<Note>, nextNoteId: nat, clock: nat, row: Category)
    requires TablesOk(users, nextUserId, categories, nextCategoryId, notes, nextNoteId, clock)
    requires row.id == nextCategoryId && row.owner in UserIds(users) && IsStoredText(row.name)
    requires FindCategoryByName(categories, row.owner, row.name).None?
    ensures TablesOk(users, nextUserId, categories + [row], nextCategoryId + 1, notes, nextNoteId, clock)
  {
    assert forall d :: d in categories ==> !(d.owner == row.owner && d.name == row.name);
    CategoriesOkAppend(categories, nextCategoryId, UserIds(users), row);
    NotesOkNewCategory(notes, nextNoteId, UserIds(users), categories, nextCategoryId, clock, row);
  }

  lemma RenameKeepsTables(users: seq<User>, nextUserId: nat, categories: seq<Category>, nextCategoryId: nat,
                          notes: seq<Note>, nextNoteId: nat, clock: nat, i: nat, name: string)
    requires TablesOk(users, nextUserId, categories, nextCategoryId, notes, nextNoteId, clock)
    requires i < |categories| && IsStoredText(name)
    requires forall j :: 0 <= j < |categories| && j != i && categories[j].owner == categories[i].owner ==>
               categories[j].name != name
    ensures TablesOk(users, nextUserId, categories[i := categories[i].(name := name)], nextCategoryId,
                     notes, nextNoteId, clock)
  {
    var after := categories[i := categories[i].(name := name)];
    CategoriesOkRename(categories, nextCategoryId, UserIds(users), i, name);
    forall k | 0 <= k < |after|
      ensures exists m :: 0 <= m < |categories| && categories[m].id == after[k].id && categories[m].owner == after[k].owner
    {
      assert categories[k].id == after[k].id && categories[k].owner == after[k].owner;
    }
    NotesOkCategoriesChange(notes, nextNoteId, UserIds(users), categories, nextCategoryId,
                            after, nextCategoryId, clock);
  }

  lemma RemoveCategoryKeepsTables(users: seq<User>, nextUserId: nat, categories: seq<Category>, nextCategoryId: nat,
                                  notes: seq<Note>, nextNoteId: nat, clock: nat, i: nat)
    requires TablesOk(users, nextUserId, categories, nextCategoryId, notes, nextNoteId, clock) && i < |categories|
    ensures TablesOk(users, nextUserId, RemoveAt(categories, i), nextCategoryId, notes, nextNoteId, clock)
  {
    var after := RemoveAt(categories, i);
    CategoriesOkRemove(categories, nextCategoryId, UserIds(users), i);
    forall k | 0 <= k < |after|
      ensures exists m :: 0 <= m < |categories| && categories[m].id == after[k].id && categories[m].owner == after[k].owner
    {
      var m := if k < i then k else k + 1;
      assert categories[m] == after[k];
    }
    NotesOkCategoriesChange(notes, nextNoteId, UserIds(users), categories, nextCategoryId,
                            after, nextCategoryId, clock);
  }

  lemma AddNoteKeepsTables(users: seq<User>, nextUserId: nat, categories: seq<Category>, nextCategoryId: nat,
                           notes: seq<Note>, nextNoteId: nat, clock: nat, n: Note)
    requires TablesOk(users, nextUserId, categories, nextCategoryId, notes, nextNoteId, clock)
    requires n.id == nextNoteId && clock <= n.updatedAt
    requires NoteRowOk(n, nextNoteId + 1, UserIds(users), categories, nextCategoryId, n.updatedAt)
    ensures TablesOk(users, nextUserId, categories, nextCategoryId, notes + [n], nextNoteId + 1, n.updatedAt)
  {
    NotesOkAppend(notes, nextNoteId, UserIds(users), categories, nextCategoryId, clock, n);
  }

  lemma ReplaceNoteKeepsTables(users: seq<User>, nextUserId: nat, categories: seq<Category>, nextCategoryId: nat,
                               notes: seq<Note>, nextNoteId: nat, clock: nat, i: nat, n: Note)
    requires TablesOk(users, nextUserId, categories, nextCategoryId, notes, nextNoteId, clock)
    requires i < |notes| && n.id == notes[i].id && clock <= n.updatedAt
    requires NoteRowOk(n, nextNoteId, UserIds(users), categories, nextCategoryId, n.updatedAt)
    ensures TablesOk(users, nextUserId, categories, nextCategoryId, notes[i := n], nextNoteId, n.updatedAt)
  {
    NotesOkReplace(notes, nextNoteId, UserIds(users), categories, nextCategoryId, clock, i, n);
  }

  lemma RemoveNoteKeepsTables(users: seq<User>, nextUserId: nat, categories: seq<Category>, nextCategoryId: nat,
                              notes: seq<Note>, nextNoteId: nat, clock: nat, i: nat)
    requires TablesOk(users, nextUserId, categories, nextCategoryId, notes, nextNoteId, clock) && i < |notes|
    ensures TablesOk(users, nextUserId, categories, nextCategoryId, RemoveAt(notes, i), nextNoteId, clock)
  {
    NotesOkRemove(notes, nextNoteId, UserIds(users), categories, nextCategoryId, clock, i);
  }

  /**
   * The store. Each repository `save` or `remove` the controllers perform
   * is one method here; each keeps `Valid()`.
   */
  class Store {
    var users: seq<User>
    var categories: seq<Category>
    var notes: seq<Note>
    var nextUserId: nat
    var nextCategoryId: nat
    var nextNoteId: nat
    /** The latest clock reading any write has used. */
    var clock: nat
    /** Every confirmation mail handed to the mail service, oldest first. */
    ghost var outbox: seq<Mail>

    ghost predicate Valid()
      reads this
    {
      TablesOk(users, nextUserId, categories, nextCategoryId, notes, nextNoteId, clock)
    }

    /** What a valid store guarantees of its note row `i` and of its category table. */
    lemma NoteRow(i: nat)
      requires Valid() && i < |notes|
      ensures NoteRowOk(notes[i], nextNoteId, UserIds(users), categories, nextCategoryId, clock)
      ensures CategoriesOk(categories, nextCategoryId, UserIds(users))
    {
    }

    /** An empty store whose counters start at 1, as AUTO_INCREMENT does. */
    constructor ()
      ensures Valid()
      ensures users == [] && categories == [] && notes == [] && outbox == []
      ensures nextUserId == 1 && nextCategoryId == 1 && nextNoteId == 1 && clock == 0
    {
      users, categories, notes := [], [], [];
      nextUserId, nextCategoryId, nextNoteId := 1, 1, 1;
      clock := 0;
      outbox := [];
    }

    /**
     * `save` of a new user: the row gets the next id. The insert fails,
     * storing nothing, when the email does not fit its 180-character column.
     */
    method InsertUser(u: User) returns (ok: bool, id: UserId)
      requires Valid()
      requires !u.isVerified && u.confirmationToken.Some?
      requires forall v :: v in users ==> v.email != u.email && v.confirmationToken != u.confirmationToken
      modifies this`users, this`nextUserId
      ensures Valid()
      ensures ok <==> |u.email| <= MaxEmailLength
      ensures ok ==> id == old(nextUserId) && users == old(users) + [u.(id := id)] && nextUserId == id + 1
      ensures !ok ==> users == old(users) && nextUserId == old(nextUserId)
    {
      id := nextUserId;
      ok := |u.email| <= MaxEmailLength;
      if ok {
        var row := u.(id := id);
        AddUserKeepsTables(users, nextUserId, categories, nextCategoryId, notes, nextNoteId, clock, row);
        users := users + [row];
        nextUserId := nextUserId + 1;
      }
    }

    /** `save` of a confirmed user: row `i` becomes verified and loses its token. */
    method SaveConfirmed(i: nat)
      requires Valid() && i < |users|
      modifies this`users
      ensures Valid()
      ensures users == old(users)[i := Confirmed(old(users)[i])]
    {
      ConfirmKeepsTables(users, nextUserId, categories, nextCategoryId, notes, nextNoteId, clock, i);
      users := users[i := Confirmed(users[i])];
    }

    /** The mail service: one confirmation mail more in the outbox. */
    method SendConfirmation(m: Mail)
      modifies this`outbox
      ensures outbox == old(outbox) + [m]
    {
      outbox := outbox + [m];
    }

    /** `save` of a new category: the row gets the next id. */
    method InsertCategory(owner: UserId, name: string) returns (id: nat)
      requires Valid() && owner in UserIds(users) && IsStoredText(name)
      requires FindCategoryByName(categories, owner, name).None?
      modifies this`categories, this`nextCategoryId
      ensures Valid()
      ensures id == old(nextCategoryId) && nextCategoryId == id + 1
      ensures categories == old(categories) + [Category(id, owner, name)]
    {
      id := nextCategoryId;
      var row := Category(id, owner, name);
      AddCategoryKeepsTables(users, nextUserId, categories, nextCategoryId, notes, nextNoteId, clock, row);
      categories := categories + [row];
      nextCategoryId := nextCategoryId + 1;
    }

    /** `save` of a renamed category: row `i` gets `name`, nothing else changes. */
    method SaveCategoryName(i: nat, name: string)
      requires Valid() && i < |categories| && IsStoredText(name)
      requires forall j :: 0 <= j < |categories| && j != i && categories[j].owner == categories[i].owner ==>
                 categories[j].name != name
      modifies this`categories
      ensures Valid()
      ensures categories == old(categories)[i := old(categories)[i].(name := name)]
    {
      RenameKeepsTables(users, nextUserId, categories, nextCategoryId, notes, nextNoteId, clock, i, name);
      categories := categories[i := categories[i].(name := name)];
    }

    /** `remove` of category row `i`; the notes are left as they are. */
    method RemoveCategory(i: nat)
      requires Valid() && i < |categories|
      modifies this`categories
      ensures Valid()
      ensures categories == RemoveAt(old(categories), i)
    {
      RemoveCategoryKeepsTables(users, nextUserId, categories, nextCategoryId, notes, nextNoteId, clock, i);
      categories := RemoveAt(categories, i);
    }

    /** `save` of a new note: the row gets the next id; the clock moves to its timestamp. */
    method InsertNote(n: Note) returns (id: nat)
      requires Valid() && clock <= n.updatedAt
      requires NoteRowOk(n.(id := nextNoteId), nextNoteId + 1, UserIds(users), categories, nextCategoryId, n.updatedAt)
      modifies this`notes, this`nextNoteId, this`clock
      ensures Valid()
      ensures id == old(nextNoteId) && nextNoteId == id + 1 && clock == n.updatedAt
      ensures notes == old(notes) + [n.(id := id)]
    {
      id := nextNoteId;
      AddNoteKeepsTables(users, nextUserId, categories, nextCategoryId, notes, nextNoteId, clock, n.(id := id));
      notes := notes + [n.(id := id)];
      nextNoteId := nextNoteId + 1;
      clock := n.updatedAt;
    }

    /** `save` of an edited note: row `i` becomes `n`; the clock moves to its timestamp. */
    method SaveNote(i: nat, n: Note)
      requires Valid() && i < |notes| && n.id == notes[i].id && clock <= n.updatedAt
      requires NoteRowOk(n, nextNoteId, UserIds(users), categories, nextCategoryId, n.updatedAt)
      modifies this`notes, this`clock
      ensures Valid()
      ensures notes == old(notes)[i := n] && clock == n.updatedAt
    {
      ReplaceNoteKeepsTables(users, nextUserId, categories, nextCategoryId, notes, nextNoteId, clock, i, n);
      notes := notes[i := n];
      clock := n.updatedAt;
    }

    /** `remove` of note row `i`. */
    method RemoveNote(i: nat)
      requires Valid() && i < |notes|
      modifies this`notes
      ensures Valid()
      ensures notes == RemoveAt(old(notes), i)
    {
      RemoveNoteKeepsTables(users, nextUserId, categories, nextCategoryId, notes, nextNoteId, clock, i);
      notes := RemoveAt(notes, i);
    }
  }
}
