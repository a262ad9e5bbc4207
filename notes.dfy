/**
 * The note controller: the body validator, create, show, update and
 * delete of the caller's notes, the list endpoint over `searchNotes`, and
 * the fixed status list. Every lookup is scoped to the caller: a note or
 * category of another user answers exactly as one that does not exist.
 */
module Notes {
  import opened Base
  import opened Php
  import opened Entities
  import opened Storage
  import opened NoteSearch

  /** The `categoryId` member of a request body: absent, `null`, or an integer. */
  datatype CategoryField = Absent | Null | Id(value: int)

  /** `isset($data['categoryId']) && $data['categoryId']`: present, not null, not 0. */
  predicate IsTruthyCategory(f: CategoryField) {
    f.Id? && f.value != 0
  }

  /** The decoded body of a create or update request; `None` is a member that is absent or `null`. */
  datatype NoteData = NoteData(
    title: Option<string>,
    content: Option<string>,
    status: Option<string>,
    categoryId: CategoryField)

  /** The three messages `validateNoteData` can collect. */
  datatype NoteError = TitleRequired | ContentRequired | InvalidStatus

  /** The position of each message in the validator's output. */
  function Rank(e: NoteError): nat {
    match e
    case TitleRequired => 0
    case ContentRequired => 1
    case InvalidStatus => 2
  }

  /** A body the validator accepts: title and content present and not blank, the status (if given) a known one. */
  predicate IsValidNoteData(data: NoteData) {
    && !IsMissing(data.title)
    && !IsMissing(data.content)
    && (data.status.Some? ==> IsStatus(data.status.value))
  }

  /** Messages in the validator's order: each rank strictly below the next. */
  predicate Ranked(errors: seq<NoteError>) {
    forall a, b :: 0 <= a < b < |errors| ==> Rank(errors[a]) < Rank(errors[b])
  }

  /** Appending a message ranked above every collected one keeps the order. */
  lemma RankedAppend(errors: seq<NoteError>, e: NoteError)
    requires Ranked(errors) && forall x :: x in errors ==> Rank(x) < Rank(e)
    ensures Ranked(errors + [e])
  {
    var r := errors + [e];
    forall a, b | 0 <= a < b < |r| ensures Rank(r[a]) < Rank(r[b]) {
      assert r[a] == errors[a];
      if b == |errors| {
        assert errors[a] in errors;
      } else {
        assert r[b] == errors[b];
      }
    }
  }

  /**
   * `validateNoteData`: collects one message per failed rule, in the
   * order title, content, status; no message means the body is valid.
   */
  method ValidateNoteData(data: NoteData) returns (errors: seq<NoteError>)
    ensures TitleRequired in errors <==> IsMissing(data.title)
    ensures ContentRequired in errors <==> IsMissing(data.content)
    ensures InvalidStatus in errors <==> data.status.Some? && !IsStatus(data.status.value)
    ensures Ranked(errors)
    ensures errors == [] <==> IsValidNoteData(data)
  {
    errors := Collect(IsMissing(data.title), IsMissing(data.content),
                      data.status.Some? && !IsStatus(data.status.value));
  }

  /** The validator's `$errors[] = ...` steps, given which of the three rules failed. */
  method Collect(noTitle: bool, noContent: bool, badStatus: bool) returns (errors: seq<NoteError>)
    ensures TitleRequired in errors <==> noTitle
    ensures ContentRequired in errors <==> noContent
    ensures InvalidStatus in errors <==> badStatus
    ensures Ranked(errors)
    ensures errors == [] <==> !noTitle && !noContent && !badStatus
  {
    errors := [];
    if noTitle {
      errors := errors + [TitleRequired];
    }
    assert forall x :: x in errors ==> x == TitleRequired;
    if noContent {
      RankedAppend(errors, ContentRequired);
      errors := errors + [ContentRequired];
    }
    assert forall x :: x in errors ==> x != InvalidStatus;
    if badStatus {
      RankedAppend(errors, InvalidStatus);
      errors := errors + [InvalidStatus];
    }
  }

  /** GET /api/notes/statuses: the statuses the validator accepts, as the client lists them. */
  function StatusList(): (r: seq<string>)
    ensures forall s :: s in r <==> IsStatus(s)
    ensures r == ["new", "todo", "done"]
  {
    Statuses
  }

  /** `findOneBy(['id' => $id, 'user' => $user])` finds a note. */
  predicate HasNote(notes: seq<Note>, id: int, owner: UserId) {
    exists n :: n in notes && n.id == id && n.owner == owner
  }

  /** `findOneBy(['id' => $id, 'user' => $user])` finds a category. */
  predicate HasCategory(categories: seq<Category>, id: int, owner: UserId) {
    exists c :: c in categories && c.id == id && c.owner == owner
  }

  /** A status and, on 200, the note. */
  datatype ShowReply = ShowReply(status: int, note: Option<Note>)

  /** GET /api/notes/{id}: the caller's note with that id (200), or 404. */
  function Show(notes: seq<Note>, caller: UserId, id: int): (r: ShowReply)
    ensures r.status == HttpOk || r.status == HttpNotFound
    ensures r.status == HttpNotFound <==> !HasNote(notes, id, caller)
    ensures r.note.Some? <==> r.status == HttpOk
    ensures r.note.Some? ==> r.note.value in notes && r.note.value.id == id && r.note.value.owner == caller
  {
    match FindNote(notes, id, caller)
    case None => ShowReply(HttpNotFound, None)
    case Some(i) => ShowReply(HttpOk, Some(notes[i]))
  }

  /** The `category` query parameter as `list` passes it on: `(int)` of a truthy string, otherwise null. */
  function CategoryFilter(category: Option<string>): (r: Option<int>)
    ensures r.None? <==> !IsTruthyOpt(category)
    ensures r.Some? ==> r.value == IntCast(category.value)
  {
    if IsTruthyOpt(category) then Some(IntCast(category.value)) else None
  }

  /**
   * GET /api/notes: `searchNotes` for the caller with the query's search,
   * status and category. Newest first; exactly the caller's notes that
   * pass every active filter.
   */
  function List(notes: seq<Note>, caller: UserId, search: Option<string>, status: Option<string>, category: Option<string>)
    : (r: seq<Note>)
    ensures SortedByUpdatedDesc(r)
    ensures forall n :: n in r <==> n in notes && Matches(n, caller, search, status, CategoryFilter(category))
    ensures forall n :: n in r ==> n.owner == caller
  {
    SearchComplete(notes, caller, search, status, CategoryFilter(category));
    SearchNotes(notes, caller, search, status, CategoryFilter(category))
  }

  /**
   * Filtering the list by the decimal id of a category returns exactly the
   * caller's notes linked to that category.
   */
  lemma ListByCategory(notes: seq<Note>, caller: UserId, id: nat)
    requires id != 0
    ensures forall n :: n in List(notes, caller, None, None, Some(Decimal(id))) <==>
      n in notes && n.owner == caller && n.category == Some(id)
  {
    DecimalCategoryFilter(id);
    forall n ensures Matches(n, caller, None, None, Some(id as int)) <==> n.owner == caller && n.category == Some(id) {
    }
  }

  /** A nonzero id sent in decimal reaches `searchNotes` unchanged. */
  lemma DecimalCategoryFilter(id: nat)
    requires id != 0
    ensures CategoryFilter(Some(Decimal(id))) == Some(id as int)
  {
    IntCastOfDecimal(id);
  }

  /** The category parameter "0" is falsy, so it filters nothing. */
  lemma ListCategoryZero(notes: seq<Note>, caller: UserId)
    ensures forall n :: n in List(notes, caller, None, None, Some("0")) <==> n in notes && n.owner == caller
  {
    var zero := "0";
    assert !IsTruthy(zero);
    assert CategoryFilter(Some(zero)) == None;
  }

  /** The row `create` stores for a valid body. */
  predicate CreatedAs(n: Note, id: nat, caller: UserId, data: NoteData, now: nat) {
    && data.title.Some? && data.content.Some?
    && n.id == id && n.owner == caller
    && n.title == Trim(data.title.value) && n.content == Trim(data.content.value)
    && n.status == data.status.GetOr(StatusNew)
    && n.createdAt == now && n.updatedAt == now
    && (n.category.Some? <==> IsTruthyCategory(data.categoryId))
    && (n.category.Some? ==> n.category.value == data.categoryId.value)
  }

  /** The row `update` stores in place of `o` for a valid body. */
  predicate EditedAs(o: Note, n: Note, data: NoteData, now: nat) {
    && data.title.Some? && data.content.Some?
    && n.id == o.id && n.owner == o.owner && n.createdAt == o.createdAt
    && n.title == Trim(data.title.value) && n.content == Trim(data.content.value)
    && n.status == data.status.GetOr(o.status)
    && n.updatedAt == now
    && (data.categoryId.Absent? ==> n.category == o.category)
    && (data.categoryId.Null? || data.categoryId == Id(0) ==> n.category.None?)
    && (IsTruthyCategory(data.categoryId) ==> n.category.Some? && n.category.value == data.categoryId.value)
  }

  /** A category the caller owns may be linked to the caller's notes. */
  lemma OwnedCategoryLink(categories: seq<Category>, nextId: nat, ids: set<UserId>, k: nat)
    requires CategoriesOk(categories, nextId, ids) && k < |categories|
    ensures LinkOk(Some(categories[k].id), categories[k].owner, categories, nextId)
  {
    assert CategoryRowOk(categories[k], nextId, ids);
  }

  /**
   * The category a saved note ends up with. A truthy `categoryId` must
   * name one of the caller's categories (otherwise `found` is false and
   * the action answers 404); `null` or 0 clears the link; an absent key
   * keeps `current`. `create` resolves against no current category.
   */
  method ResolveCategory(categories: seq<Category>, nextCategoryId: nat, ghost ids: set<UserId>,
                         caller: UserId, current: Option<nat>, field: CategoryField)
    returns (found: bool, category: Option<nat>)
    requires CategoriesOk(categories, nextCategoryId, ids)
    requires LinkOk(current, caller, categories, nextCategoryId)
    ensures found <==> !(IsTruthyCategory(field) && !HasCategory(categories, field.value, caller))
    ensures found ==> LinkOk(category, caller, categories, nextCategoryId)
    ensures found && field.Absent? ==> category == current
    ensures found && (field.Null? || field == Id(0)) ==> category.None?
    ensures found && IsTruthyCategory(field) ==> category.Some? && category.value == field.value
  {
    found, category := true, current;
    match field {
      case Absent =>
      case Null =>
        category := None;
      case Id(v) =>
        if v == 0 {
          category := None;
        } else {
          var k := FindCategory(categories, v, caller);
          if k.None? {
            return false, None;
          }
          OwnedCategoryLink(categories, nextCategoryId, ids, k.value);
          category := Some(categories[k.value].id);
        }
    }
  }

  /** A valid body's trimmed title and content are stored text. */
  lemma ValidTextIsStored(data: NoteData)
    requires IsValidNoteData(data)
    ensures IsStoredText(Trim(data.title.value)) && IsStoredText(Trim(data.content.value))
  {
    TrimIdempotent(data.title.value);
    TrimIdempotent(data.content.value);
  }

  /**
   * POST /api/notes. An invalid body is 400; a truthy `categoryId` that
   * is not one of the caller's categories is 404; otherwise one note is
   * added for the caller, with trimmed title and content, the given status
   * or "new", both timestamps `now`, and the category when one was given,
   * and the answer is 201. Only a 201 stores anything.
   */
  method Create(db: Store, caller: UserId, data: NoteData, now: nat)
    returns (status: int, created: Option<Note>)
    requires db.Valid() && caller in UserIds(db.users) && db.clock <= now
    modifies db`notes, db`nextNoteId, db`clock
    ensures db.Valid()
    ensures status in {HttpCreated, HttpBadRequest, HttpNotFound}
    ensures status == HttpBadRequest <==> !IsValidNoteData(data)
    ensures status == HttpNotFound <==>
      IsValidNoteData(data) && IsTruthyCategory(data.categoryId) &&
      !HasCategory(old(db.categories), data.categoryId.value, caller)
    ensures status != HttpCreated ==>
      db.notes == old(db.notes) && db.nextNoteId == old(db.nextNoteId) && db.clock == old(db.clock) && created.None?
    ensures status == HttpCreated ==>
      && |db.notes| == |old(db.notes)| + 1 && db.notes[..|old(db.notes)|] == old(db.notes)
      && CreatedAs(db.notes[|old(db.notes)|], old(db.nextNoteId), caller, data, now)
      && db.nextNoteId == old(db.nextNoteId) + 1 && db.clock == now
      && created == Some(db.notes[|old(db.notes)|])
  {
    var errors := ValidateNoteData(data);
    if errors != [] {
      return HttpBadRequest, None;
    }
    var found, category := ResolveCategory(db.categories, db.nextCategoryId, UserIds(db.users),
                                           caller, None, data.categoryId);
    if !found {
      return HttpNotFound, None;
    }
    var n := SaveNew(db, caller, data, category, now);
    assert CreatedAs(n, old(db.nextNoteId), caller, data, now);
    status, created := HttpCreated, Some(n);
  }

  /** The setters and `save` of a valid new note. */
  method SaveNew(db: Store, caller: UserId, data: NoteData, category: Option<nat>, now: nat) returns (n: Note)
    requires db.Valid() && caller in UserIds(db.users) && db.clock <= now && IsValidNoteData(data)
    requires LinkOk(category, caller, db.categories, db.nextCategoryId)
    modifies db`notes, db`nextNoteId, db`clock
    ensures db.Valid()
    ensures db.notes == old(db.notes) + [n] && db.nextNoteId == old(db.nextNoteId) + 1 && db.clock == now
    ensures n == Note(old(db.nextNoteId), caller, category, Trim(data.title.value), Trim(data.content.value),
                      data.status.GetOr(StatusNew), now, now)
  {
    ValidTextIsStored(data);
    n := Note(db.nextNoteId, caller, category, Trim(data.title.value), Trim(data.content.value),
              data.status.GetOr(StatusNew), now, now);
    var id := db.InsertNote(n);
  }

  /**
   * PUT /api/notes/{id}. A note the caller does not own is 404 before the
   * body is looked at; an invalid body is 400; a truthy `categoryId` that
   * is not one of the caller's categories is 404 and nothing is saved.
   * Otherwise that one note gets the trimmed title and content, the given
   * status or its old one, `updatedAt = now` (createdAt untouched), and
   * its category kept (key absent), cleared (null or 0) or replaced, and
   * the answer is 200.
   */
  method Update(db: Store, caller: UserId, id: int, data: NoteData, now: nat)
    returns (status: int, updated: Option<Note>)
    requires db.Valid() && db.clock <= now
    modifies db`notes, db`clock
    ensures db.Valid()
    ensures status in {HttpOk, HttpBadRequest, HttpNotFound}
    ensures status == HttpNotFound <==>
      !HasNote(old(db.notes), id, caller) ||
      (IsValidNoteData(data) && IsTruthyCategory(data.categoryId) &&
       !HasCategory(old(db.categories), data.categoryId.value, caller))
    ensures status == HttpBadRequest <==> HasNote(old(db.notes), id, caller) && !IsValidNoteData(data)
    ensures status != HttpOk ==> db.notes == old(db.notes) && db.clock == old(db.clock) && updated.None?
    ensures status == HttpOk ==>
      exists i :: 0 <= i < |old(db.notes)| && old(db.notes)[i].id == id && old(db.notes)[i].owner == caller &&
        |db.notes| == |old(db.notes)| && db.notes == old(db.notes)[i := db.notes[i]] &&
        EditedAs(old(db.notes)[i], db.notes[i], data, now) && updated == Some(db.notes[i]) && db.clock == now
  {
    var foundNote := FindNote(db.notes, id, caller);
    if foundNote.None? {
      return HttpNotFound, None;
    }
    var i := foundNote.value;
    var errors := ValidateNoteData(data);
    if errors != [] {
      return HttpBadRequest, None;
    }
    status, updated := EditNote(db, i, data, now);
  }

  /**
   * The part of `update` after the checks on note row `i`: resolve the
   * category (404 when a truthy `categoryId` is not the owner's), then
   * apply the edit and save it.
   */
  method EditNote(db: Store, i: nat, data: NoteData, now: nat) returns (status: int, updated: Option<Note>)
    requires db.Valid() && i < |db.notes| && db.clock <= now && IsValidNoteData(data)
    modifies db`notes, db`clock
    ensures db.Valid()
    ensures status == HttpOk || status == HttpNotFound
    ensures status == HttpNotFound <==>
      IsTruthyCategory(data.categoryId) && !HasCategory(old(db.categories), data.categoryId.value, old(db.notes)[i].owner)
    ensures status == HttpNotFound ==> db.notes == old(db.notes) && db.clock == old(db.clock) && updated.None?
    ensures status == HttpOk ==>
      |db.notes| == |old(db.notes)| && db.notes == old(db.notes)[i := db.notes[i]] &&
      EditedAs(old(db.notes)[i], db.notes[i], data, now) && updated == Some(db.notes[i]) && db.clock == now
  {
    var o := db.notes[i];
    db.NoteRow(i);
    var found, category := ResolveCategory(db.categories, db.nextCategoryId, UserIds(db.users),
                                           o.owner, o.category, data.categoryId);
    if !found {
      return HttpNotFound, None;
    }
    var n := SaveEdit(db, i, data, category, now);
    assert EditedAs(o, n, data, now);
    status, updated := HttpOk, Some(n);
  }

  /** The setters and `save` of a valid update on note row `i`. */
  method SaveEdit(db: Store, i: nat, data: NoteData, category: Option<nat>, now: nat) returns (n: Note)
    requires db.Valid() && i < |db.notes| && db.clock <= now && IsValidNoteData(data)
    requires LinkOk(category, db.notes[i].owner, db.categories, db.nextCategoryId)
    modifies db`notes, db`clock
    ensures db.Valid()
    ensures db.notes == old(db.notes)[i := n] && db.clock == now
    ensures var o := old(db.notes)[i];
      n == o.(title := Trim(data.title.value), content := Trim(data.content.value),
              status := data.status.GetOr(o.status), updatedAt := now, category := category)
  {
    var o := db.notes[i];
    db.NoteRow(i);
    ValidTextIsStored(data);
    n := o.(title := Trim(data.title.value), content := Trim(data.content.value),
            status := data.status.GetOr(o.status), updatedAt := now, category := category);
    db.SaveNote(i, n);
  }

  /**
   * DELETE /api/notes/{id}. A note the caller does not own is 404 and
   * nothing changes; otherwise exactly that note is removed (200).
   */
  method Delete(db: Store, caller: UserId, id: int) returns (status: int)
    requires db.Valid()
    modifies db`notes
    ensures db.Valid()
    ensures status == HttpOk || status == HttpNotFound
    ensures status == HttpNotFound <==> !HasNote(old(db.notes), id, caller)
    ensures status == HttpNotFound ==> db.notes == old(db.notes)
    ensures status == HttpOk ==>
      exists i :: 0 <= i < |old(db.notes)| && old(db.notes)[i].id == id && old(db.notes)[i].owner == caller &&
        db.notes == RemoveAt(old(db.notes), i)
  {
    var found := FindNote(db.notes, id, caller);
    if found.None? {
      return HttpNotFound;
    }
    db.RemoveNote(found.value);
    status := HttpOk;
  }

  /**
   * In a valid store a note's id names one row, so once it is deleted the
   * owner can no longer show it.
   */
  lemma DeletedNoteIsGone(notes: seq<Note>, nextId: nat, ids: set<UserId>, categories: seq<Category>,
                          nextCategoryId: nat, clock: nat, i: nat)
    requires NotesOk(notes, nextId, ids, categories, nextCategoryId, clock) && i < |notes|
    ensures Show(RemoveAt(notes, i), notes[i].owner, notes[i].id).status == HttpNotFound
  {
    RemovedNoteGone(notes, i);
  }

  lemma RemovedNoteGone(notes: seq<Note>, i: nat)
    requires i < |notes| && forall a, b :: 0 <= a < b < |notes| ==> notes[a].id != notes[b].id
    ensures forall n :: n in RemoveAt(notes, i) ==> n.id != notes[i].id
  {
    var after := RemoveAt(notes, i);
    forall n | n in after ensures n.id != notes[i].id {
      var j :| 0 <= j < |after| && after[j] == n;
      if j < i {
        assert after[j] == notes[j];
      } else {
        assert after[j] == notes[j + 1];
      }
    }
  }
}
